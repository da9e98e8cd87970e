/**
 * The HTTP/1.1 connection engine: one reused read buffer, a keep-alive request
 * loop, body relays in both directions and compaction of pipelined bytes.
 */
module Connection {
  import opened Text
  import opened Http1
  import opened Http1Writer
  import RouteTable
  import UrlRewriting
  import Simd

  const IO_BUF_SIZE: nat := 32 * 1024
  const IO_BUF_INITIAL: nat := 4 * 1024
  const MAX_REQUESTS: nat := 100_000
  const H2_PREFACE := "PRI * HTTP/2.0\r\n\r\nSM\r\n\r\n"

  // ----- the read buffer -----------------------------------------------------

  /** The length `grow_for_read` resizes the buffer to. */
  function GrownLen(len: nat, filled: nat): nat {
    var headroom := if len >= filled then len - filled else 0;
    if headroom >= IO_BUF_INITIAL then len
    else if len < IO_BUF_INITIAL then IO_BUF_INITIAL
    else
      var target := if len * 2 < filled + IO_BUF_SIZE then len * 2 else filled + IO_BUF_SIZE;
      if target > filled + IO_BUF_INITIAL then target else filled + IO_BUF_INITIAL
  }

  /** A read slot is never empty, nothing buffered is cut off, and growth respects the ceiling. */
  lemma SlotNeverEmpty(len: nat, filled: nat)
    requires filled <= len
    ensures GrownLen(len, filled) > filled && GrownLen(len, filled) >= len
    ensures GrownLen(len, filled) > len ==> GrownLen(len, filled) <= filled + IO_BUF_SIZE
  {
  }

  /** Buffers start at 4 KiB and at most double, up to 32 KiB of room; room for 4 KiB is left alone. */
  lemma GrowthIsGeometric(len: nat, filled: nat)
    requires filled <= len
    ensures len - filled >= 4_096 ==> GrownLen(len, filled) == len
    ensures len < 4_096 ==> GrownLen(len, filled) == 4_096
    ensures len >= 4_096 && len - filled < 4_096 ==>
              filled + 4_096 <= GrownLen(len, filled) <= filled + 32_768
              && (GrownLen(len, filled) <= 2 * len || GrownLen(len, filled) == filled + 4_096)
              && (GrownLen(len, filled) >= 2 * len || GrownLen(len, filled) >= filled + 32_768)
  {
  }

  function Resize(buf: string, n: nat): (r: string)
    ensures |r| == n
  {
    if n <= |buf| then buf[..n] else buf + seq(n - |buf|, _ => 0 as char)
  }

  function CopyWithin(buf: string, from: nat, to: nat): string {
    if from <= to <= |buf| then buf[from..to] + buf[to - from..] else buf
  }

  /** How many of the buffered bytes after the head belonged to this body. */
  function BodyPrefixLen(body: BodyLength, available: nat): nat {
    match body
    case Empty => 0
    case Fixed(n) => if n < available then n else available
    case _ => available
  }

  /** Move the bytes of the next pipelined request to the front. */
  function Compact(buf: string, filled: nat, consumed: nat, leftover: nat, body: BodyLength): (string, nat)
    requires consumed + leftover <= filled
  {
    if leftover > 0 then (CopyWithin(buf, filled - leftover, filled), leftover)
    else
      var start := consumed + BodyPrefixLen(body, filled - consumed);
      if start < filled then (CopyWithin(buf, start, filled), filled - start) else (buf, 0)
  }

  /** The fallback branch of compaction never moves anything: the buffer is simply empty. */
  lemma FallbackEmpties(buf: string, filled: nat, consumed: nat, body: BodyLength)
    requires consumed <= filled
    requires body.Empty? ==> consumed == filled
    requires body.Fixed? ==> filled - consumed <= body.length
    ensures Compact(buf, filled, consumed, 0, body) == (buf, 0)
  {
  }

  // ----- the outside world ---------------------------------------------------

  /** `read` into `buf[at..end]`: an error, end of stream, or any non-empty chunk that fits. */
  datatype Io = Done | Eof | Broken

  method ReadInto(reliable: bool, buf: string, at: nat, end: nat, src: string) returns (io: Io, n: nat, buf': string, src': string)
    requires at < end <= |buf|
    ensures reliable ==> !io.Broken?
    ensures !io.Done? ==> n == 0 && buf' == buf && src' == src
    ensures io.Eof? ==> src == ""
    ensures io.Done? ==> 1 <= n <= end - at && n <= |src| && src' == src[n..]
    ensures io.Done? ==> at + n <= |buf'| && buf'[..at + n] == buf[..at] + src[..n]
  {
    io, n, buf', src' := Broken, 0, buf, src;
    var fails: bool := *;
    if fails && !reliable {
      return;
    }
    if src == "" {
      io := Eof;
    } else {
      io := Done;
      n :| 1 <= n <= end - at && n <= |src|;
      // Whether the runtime leaves the rest of the vector in place or cuts it is not relied on.
      var cut: bool := *;
      buf' := buf[..at] + src[..n] + (if cut then "" else buf[at + n..]);
      src' := src[n..];
    }
  }

  /** `write_all`: it fails exactly when some of the bytes could not be written. */
  method WriteAll(reliable: bool, data: string) returns (ok: bool, put: string)
    ensures put <= data && (ok <==> put == data)
    ensures reliable ==> ok
  {
    var n: nat :| n <= |data|;
    if reliable {
      n := |data|;
    }
    put, ok := data[..n], n == |data|;
  }

  lemma PrefixGrows(a: string, p: string, s: string)
    requires p <= s
    ensures a + p <= a + s
  {
    assert a + s == a + p + s[|p|..];
  }

  // ----- body relays -----------------------------------------------------------

  /** One read of at most `want` bytes, written on as it is. */
  method RelayStep(reliable: bool, buf0: string, want: nat, src0: string) returns (io: Io, put: string, buf: string, src: string)
    requires 0 < want <= |buf0|
    ensures reliable ==> !io.Broken?
    ensures io.Done? ==> put + src == src0 && 1 <= |put| <= want && |src| < |src0| && |buf| > 0
    ensures io.Eof? ==> put == "" && src0 == src == ""
    ensures io.Broken? ==> put <= src0 && |put| < want
  {
    var n: nat;
    put := "";
    io, n, buf, src := ReadInto(reliable, buf0, 0, want, src0);
    if io.Done? {
      assert buf[..n] == buf0[..0] + src0[..n] == src0[..n];
      assert src0 == src0[..n] + src;
      var ok: bool;
      ok, put := WriteAll(reliable, buf[..n]);
      io := if ok then Done else Broken;
    }
  }

  method RelayExact(reliable: bool, src0: string, buf0: string, length: nat) returns (io: Io, sent: string, src: string, buf: string)
    ensures reliable ==> !io.Broken?
    ensures sent <= src0 && |sent| <= length
    ensures !io.Broken? ==> sent + src == src0
    ensures io.Done? <==> |sent| == length
    ensures io.Eof? ==> src == ""
  {
    buf, src, sent := buf0, src0, "";
    if |buf| < IO_BUF_SIZE {
      buf := Resize(buf, IO_BUF_SIZE);
    }
    var remaining: nat := length;
    while remaining > 0
      invariant |buf| > 0
      invariant sent + src == src0 && |sent| + remaining == length
    {
      var want := if remaining < |buf| then remaining else |buf|;
      var put: string;
      ghost var before := src;
      io, put, buf, src := RelayStep(reliable, buf, want, src);
      PrefixGrows(sent, put, before);
      assert sent + (put + src) == sent + put + src;
      sent := sent + put;
      if !io.Done? {
        return;
      }
      remaining := remaining - |put|;
    }
    io := Done;
  }

  predicate TerminatorAt(chunk: string, i: nat) {
    i + 5 <= |chunk| && chunk[i..i + 5] == "0\r\n\r\n"
  }

  predicate HasTerminator(chunk: string) {
    exists i :: 0 <= i <= |chunk| && TerminatorAt(chunk, i)
  }

  lemma TerminatorStays(sent: string, put: string)
    requires HasTerminator(put)
    ensures exists i :: LastChunkAt(sent + put, i)
  {
    var i :| 0 <= i <= |put| && TerminatorAt(put, i);
    var t := put[i..i + 5];
    assert t[0] == put[i] && t[1] == put[i + 1] && t[2] == put[i + 2] && t[3] == put[i + 3] && t[4] == put[i + 4];
    assert LastChunkAt(sent + put, |sent| + i);
  }

  /** A zero-length chunk and the blank line behind it. */
  ghost predicate LastChunkAt(s: string, i: nat) {
    i + 5 <= |s| && s[i] == '0' && s[i + 1] == '\r' && s[i + 2] == '\n' && s[i + 3] == '\r' && s[i + 4] == '\n'
  }

  /** Bytes are copied verbatim; only a terminator inside one read ends the relay before end of stream. */
  method RelayChunked(reliable: bool, src0: string, buf0: string) returns (io: Io, sent: string, src: string, buf: string)
    ensures reliable ==> !io.Broken?
    ensures sent <= src0
    ensures !io.Broken? ==> sent + src == src0
    ensures !io.Eof?
    ensures io.Done? ==> src == "" || exists i :: LastChunkAt(sent, i)
  {
    buf, src, sent := buf0, src0, "";
    if |buf| < IO_BUF_SIZE {
      buf := Resize(buf, IO_BUF_SIZE);
    }
    while true
      invariant |buf| > 0
      invariant sent + src == src0
      decreases |src|
    {
      var put: string;
      ghost var before := src;
      io, put, buf, src := RelayStep(reliable, buf, |buf|, src);
      PrefixGrows(sent, put, before);
      assert sent + (put + src) == sent + put + src;
      if HasTerminator(put) { TerminatorStays(sent, put); }
      sent := sent + put;
      if io.Eof? {
        io := Done;
        return;
      }
      if io.Broken? || HasTerminator(put) {
        return;
      }
    }
  }

  method RelayUntilClose(reliable: bool, src0: string, buf0: string) returns (io: Io, sent: string)
    ensures reliable ==> !io.Broken?
    ensures sent <= src0
    ensures io.Done? ==> sent == src0
    ensures !io.Eof?
  {
    var buf, src := buf0, src0;
    sent := "";
    if |buf| < IO_BUF_SIZE {
      buf := Resize(buf, IO_BUF_SIZE);
    }
    while true
      invariant |buf| > 0
      invariant sent + src == src0
      decreases |src|
    {
      var put: string;
      ghost var before := src;
      io, put, buf, src := RelayStep(reliable, buf, |buf|, src);
      PrefixGrows(sent, put, before);
      assert sent + (put + src) == sent + put + src;
      sent := sent + put;
      if io.Eof? {
        io := Done;
        return;
      }
      if io.Broken? {
        return;
      }
    }
  }

  // ----- reading one request head ------------------------------------------------

  /** Whether the buffer is, is not, or may still become the HTTP/2 preface. */
  function DetectH2(buf: string): Option<bool> {
    var n := if |buf| < |H2_PREFACE| then |buf| else |H2_PREFACE|;
    if buf[..n] != H2_PREFACE[..n] then Some(false)
    else if |buf| >= |H2_PREFACE| then Some(true)
    else None
  }

  datatype HeadOutcome = Got(head: RequestHead) | Upgrade | Ended | Malformed | TooLarge | Failed

  method ReadMore(reliable: bool, buf0: string, filled0: nat, src0: string) returns (io: Io, buf: string, filled: nat, src: string)
    requires filled0 <= |buf0|
    ensures reliable ==> !io.Broken?
    ensures filled <= |buf|
    ensures io.Eof? ==> src0 == "" && filled == filled0 && buf[..filled] == buf0[..filled0] && src == src0
    ensures io.Done? ==> |src| < |src0| && filled > 0 && buf[..filled] + src == buf0[..filled0] + src0
  {
    SlotNeverEmpty(|buf0|, filled0);
    buf := Resize(buf0, GrownLen(|buf0|, filled0));
    assert buf[..filled0] == buf0[..filled0];
    filled := filled0;
    var n: nat;
    ghost var grown := buf;
    io, n, buf, src := ReadInto(reliable, buf, filled, |buf|, src0);
    if io.Done? {
      filled := filled + n;
      assert buf[..filled] == grown[..filled0] + src0[..n];
      assert src0 == src0[..n] + src;
    }
  }

  /** The first bytes of a connection are not the HTTP/2 preface. */
  ghost predicate NotH2(seen: string, served: nat) {
    served == 0 ==> DetectH2(seen) == Some(false)
  }

  /** Nothing to serve: no bytes, a partial head, or at the very start a possible preface. */
  ghost predicate NoRequest(seen: string, served: nat) {
    || seen == ""
    || (RequestOf(seen).Partial? && NotH2(seen, served))
    || (served == 0 && DetectH2(seen).None?)
  }

  /** What each outcome says about the bytes seen and the bytes still to come. */
  ghost predicate HeadRead(outcome: HeadOutcome, seen: string, src: string, served: nat) {
    match outcome
    case Got(head) => seen != "" && RequestOf(seen) == Complete(head) && NotH2(seen, served)
    case Malformed => RequestOf(seen).Invalid? && NotH2(seen, served)
    case TooLarge => RequestOf(seen).Partial? && |seen| >= MAX_HEAD_SIZE && NotH2(seen, served)
    case Upgrade => served == 0 && DetectH2(seen) == Some(true)
    case Ended => src == "" && NoRequest(seen, served)
    case Failed => true
  }

  method ReadHead(reliable: bool, buf0: string, filled0: nat, src0: string, served: nat)
    returns (outcome: HeadOutcome, buf: string, filled: nat, src: string)
    requires filled0 <= |buf0|
    ensures filled <= |buf|
    ensures !outcome.Failed? ==> buf[..filled] + src == buf0[..filled0] + src0
    ensures HeadRead(outcome, buf[..filled], src, served) && (reliable ==> !outcome.Failed?)
  {
    buf, filled, src := buf0, filled0, src0;
    while true
      invariant filled <= |buf|
      invariant buf[..filled] + src == buf0[..filled0] + src0
      decreases |src|
    {
      if filled > 0 {
        var sniff := if served == 0 then DetectH2(buf[..filled]) else Some(false);
        if sniff == Some(true) {
          return Upgrade, buf, filled, src;
        }
        if sniff == Some(false) {
          var parsed := ParseRequest(buf[..filled]);
          match parsed {
            case Complete(head) =>
              return Got(head), buf, filled, src;
            case Invalid =>
              return Malformed, buf, filled, src;
            case Partial =>
          }
          if filled >= MAX_HEAD_SIZE {
            return TooLarge, buf, filled, src;
          }
        }
      }
      var io: Io;
      io, buf, filled, src := ReadMore(reliable, buf, filled, src);
      if io.Eof? {
        return Ended, buf, filled, src;
      }
      if io.Broken? {
        return Failed, buf, filled, src;
      }
    }
  }

  // ----- relaying one request body ------------------------------------------------

  /** What framing says about the bytes sent as a body. */
  ghost predicate BodyDone(body: BodyLength, sent: string) {
    match body
    case Empty => sent == ""
    case Fixed(n) => |sent| == n
    case Chunked => true
    case UntilClose => sent == ""
  }

  /** Bytes moved to the front are the pipelined remainder. */
  lemma CompactKeeps(buf: string, filled: nat, consumed: nat, leftover: nat, body: BodyLength)
    requires 0 < leftover && consumed + leftover <= filled <= |buf|
    ensures var (b, f) := Compact(buf, filled, consumed, leftover, body);
            f == leftover && f <= |b| && b[..f] == buf[filled - leftover..filled]
  {
  }

  lemma SliceFront(buf: string, a: nat, b: nat, n: nat)
    requires a + n <= b <= |buf|
    ensures buf[a..a + n] == buf[a..b][..n] <= buf[a..b]
  {
  }

  lemma CutAndRejoin(rest: string, n: nat, src: string)
    requires n <= |rest|
    ensures rest[..n] + rest[n..] + src == rest + src && rest[..n] <= rest + src
  {
    assert rest[..n] + rest[n..] == rest;
    assert rest + src == rest[..n] + (rest[n..] + src);
  }

  lemma ThenMore(rest: string, more: string, src: string, src0: string)
    requires more <= src0
    ensures rest + more <= rest + src0
    ensures more + src == src0 ==> rest + more + rest[|rest|..] + src == rest + src0
  {
    PrefixGrows(rest, more, src0);
    assert rest + more + rest[|rest|..] + src == rest + (more + src);
  }

  /** Write `n` of the bytes buffered behind the head. */
  method SendBuffered(reliable: bool, buf: string, consumed: nat, filled: nat, n: nat) returns (ok: bool, sent: string)
    requires consumed + n <= filled <= |buf|
    ensures reliable ==> ok
    ensures sent <= buf[consumed..filled][..n] && (ok <==> sent == buf[consumed..filled][..n])
  {
    SliceFront(buf, consumed, filled, n);
    ok, sent := true, "";
    if n > 0 {
      ok, sent := WriteAll(reliable, buf[consumed..consumed + n]);
    }
  }

  /** A Content-Length body: its buffered part, then exactly what is missing. */
  method SendFixed(reliable: bool, buf0: string, consumed: nat, filled0: nat, src0: string, len: nat)
    returns (io: Io, sent: string, buf: string, leftover: nat, src: string)
    requires consumed <= filled0 <= |buf0|
    ensures reliable ==> !io.Broken?
    ensures BodySent(Fixed(len), buf0[consumed..filled0], src0, io, sent, leftover, src)
    ensures leftover > 0 ==> buf == buf0
  {
    leftover := filled0 - consumed;
    ghost var rest := buf0[consumed..filled0];
    var already := if leftover < len then leftover else len;
    io, buf, src := Done, buf0, src0;
    var ok: bool;
    ok, sent := SendBuffered(reliable, buf0, consumed, filled0, already);
    CutAndRejoin(rest, already, src0);
    if !ok {
      io := Broken;
      return;
    }
    leftover := leftover - already;
    if already < len {
      assert rest[..already] == rest;
      var more: string;
      io, more, src, buf := RelayExact(reliable, src0, buf0, len - already);
      ThenMore(rest, more, src, src0);
      sent := sent + more;
      leftover := 0;
    }
  }

  /** A chunked body: everything buffered, then the relay. */
  method SendChunked(reliable: bool, buf0: string, consumed: nat, filled0: nat, src0: string)
    returns (io: Io, sent: string, buf: string, src: string)
    requires consumed <= filled0 <= |buf0|
    ensures reliable ==> !io.Broken?
    ensures BodySent(Chunked, buf0[consumed..filled0], src0, io, sent, 0, src)
  {
    ghost var rest := buf0[consumed..filled0];
    io, buf, src := Done, buf0, src0;
    var ok: bool;
    ok, sent := SendBuffered(reliable, buf0, consumed, filled0, filled0 - consumed);
    CutAndRejoin(rest, |rest|, src0);
    if !ok {
      io := Broken;
      return;
    }
    assert rest[..|rest|] == rest;
    var more: string;
    io, more, src, buf := RelayChunked(reliable, src0, buf0);
    ThenMore(rest, more, src, src0);
    sent := sent + more;
  }

  /** Sent, left over and unread bytes are the bytes there were. */
  ghost predicate Rejoins(sent: string, rest: string, leftover: nat, src: string, src0: string)
    requires leftover <= |rest|
  {
    sent + rest[|rest| - leftover..] + src == rest + src0
  }

  /** What sending a body leaves behind: `leftover` buffered bytes, and `src` unread. */
  ghost predicate BodySent(body: BodyLength, rest: string, src0: string, io: Io, sent: string, leftover: nat, src: string) {
    && sent <= rest + src0
    && leftover <= |rest|
    && (!io.Broken? ==> Rejoins(sent, rest, leftover, src, src0))
    && (!io.Broken? && leftover == 0 ==> (body.Empty? ==> rest == "") && (body.Fixed? ==> |rest| <= body.length))
    && (io.Done? ==> BodyDone(body, sent))
    && (io.Eof? ==> body.Fixed? && |sent| < body.length && src == "" && leftover == 0)
  }

  lemma NothingSent(body: BodyLength, rest: string, src: string)
    requires body.Empty? || body.UntilClose?
    ensures BodySent(body, rest, src, Done, "", |rest|, src)
  {
    assert "" + rest[0..] + src == rest + src;
  }

  /** Send the body: first what is buffered behind the head, then what is still to be read. */
  method SendBody(reliable: bool, buf0: string, filled0: nat, src0: string, head: RequestHead)
    returns (io: Io, sent: string, buf: string, leftover: nat, src: string)
    requires head.headLen <= filled0 <= |buf0|
    ensures reliable ==> !io.Broken?
    ensures BodySent(head.body, buf0[head.headLen..filled0], src0, io, sent, leftover, src)
    ensures leftover > 0 ==> buf == buf0
  {
    var consumed := head.headLen;
    leftover := filled0 - consumed;
    io, buf, src, sent := Done, buf0, src0, "";
    match head.body {
      case Empty =>
        NothingSent(head.body, buf0[consumed..filled0], src0);
      case UntilClose =>
        NothingSent(head.body, buf0[consumed..filled0], src0);
      case Fixed(len) =>
        io, sent, buf, leftover, src := SendFixed(reliable, buf0, consumed, filled0, src0, len);
      case Chunked =>
        io, sent, buf, src := SendChunked(reliable, buf0, consumed, filled0, src0);
        leftover := 0;
    }
  }

  /** Relay the request body, then leave exactly the next request's bytes at the front of the buffer. */
  method RelayRequestBody(reliable: bool, buf0: string, filled0: nat, src0: string, head: RequestHead)
    returns (io: Io, sent: string, buf: string, filled: nat, src: string)
    requires head.headLen <= filled0 <= |buf0|
    ensures filled <= |buf|
    ensures reliable ==> !io.Broken?
    ensures sent <= buf0[head.headLen..filled0] + src0
    ensures !io.Broken? ==> sent + buf[..filled] + src == buf0[head.headLen..filled0] + src0
    ensures io.Done? ==> BodyDone(head.body, sent)
    ensures io.Eof? ==> head.body.Fixed? && |sent| < head.body.length && src == "" && filled == 0
  {
    var leftover: nat;
    io, sent, buf, leftover, src := SendBody(reliable, buf0, filled0, src0, head);
    if io.Broken? {
      filled := 0;
      return;
    }
    ghost var rest := buf0[head.headLen..filled0];
    if leftover > 0 {
      CompactKeeps(buf, filled0, head.headLen, leftover, head.body);
      assert rest[|rest| - leftover..] == buf[filled0 - leftover..filled0];
    } else {
      FallbackEmpties(buf, filled0, head.headLen, head.body);
      assert rest[|rest|..] == "";
    }
    var (moved, kept) := Compact(buf, filled0, head.headLen, leftover, head.body);
    buf, filled := moved, kept;
  }

  // ----- routing -------------------------------------------------------------------

  /** The path portion of a request target. */
  function PathOf(target: string): string {
    target[..IndexOf(target, '?')]
  }

  /** The target sent upstream: a route's rewrite touches the path and keeps the query. */
  function ForwardTarget(rewrite: Option<RouteTable.UrlRewrite>, target: string): string {
    if rewrite.None? then target
    else UrlRewriting.Rewritten(rewrite, PathOf(target)) + target[IndexOf(target, '?')..]
  }

  /**
   * Everything the connection depends on: the instruction set of the machine and,
   * per request number, the table loaded, the address the target group selects,
   * whether connecting succeeds, and all bytes the upstream sends in reply. In a
   * reliable environment no read or write of an open connection fails.
   */
  datatype Env = Env(tables: nat -> RouteTable.Table, select: (nat, RouteTable.RouteAction) -> string,
                     connects: nat -> bool, replies: nat -> string, peer: Option<string>, isa: Simd.Isa, reliable: bool)

  datatype Route = Route(address: string, target: string)

  function RouteFor(env: Env, i: nat, head: RequestHead): Option<Route> {
    match RouteTable.TieredLookup(env.tables(i), head.host, PathOf(head.target))
    case None => None
    case Some(action) => Some(Route(env.select(i, action), ForwardTarget(action.target.rewrite, head.target)))
  }

  // ----- relaying one response -------------------------------------------------------

  datatype Reply =
    | Silent
    | Relayed(head: ResponseHead, raw: string, sentHead: string, sentBody: string, keepAlive: bool, finished: bool)

  ghost predicate ReplyDone(stream: string, r: Reply)
    requires r.Relayed?
  {
    match r.head.body
    case Empty => r.sentBody == ""
    case Fixed(n) => |r.sentBody| == n
    case Chunked => true
    case UntilClose => r.raw + r.sentBody == stream
  }

  /** A relayed reply is a rewritten head and a prefix of the body bytes that followed the original head. */
  ghost predicate ReplyFaithful(stream: string, requestMethod: string, r: Reply)
    requires r.Relayed?
  {
    && ResponseOf(r.raw, requestMethod) == Complete(r.head) && r.head.headLen == |r.raw|
    && r.sentHead == ReturnHead(r.raw, r.head, r.keepAlive)
    && r.raw + r.sentBody <= stream
    && (r.finished ==> ReplyDone(stream, r))
  }

  /** The upstream closed before the body its Content-Length announced was complete. */
  ghost predicate ReplyCut(stream: string, r: Reply)
    requires r.Relayed?
  {
    r.head.body.Fixed? && |r.sentBody| < r.head.body.length && r.raw + r.sentBody == stream
  }

  datatype ReplyEnd = Answered | BadUpstream | UpstreamGone | ReplyBroken

  /** The bytes a reply put on the client's connection. */
  function ReplyBytes(r: Reply): string {
    if r.Relayed? then r.sentHead + r.sentBody else ""
  }

  /** Writing the response head was cut short: what got out is part of the head that was due. */
  ghost predicate HeadCut(stream: string, requestMethod: string, keepAlive: bool, put: string) {
    put != "" ==>
      && ResponseOf(stream, requestMethod).Complete?
      && var head := ResponseOf(stream, requestMethod).head;
         head.headLen <= |stream| && put <= ReturnHead(stream, head, keepAlive && !head.body.UntilClose?)
  }

  lemma ReturnHeadLocal(buf: string, head: ResponseHead, keepAlive: bool)
    requires head.headLen <= |buf|
    ensures ReturnHead(buf, head, keepAlive) == ReturnHead(buf[..head.headLen], head, keepAlive)
  {
    var raw := buf[..head.headLen];
    assert raw[..head.headLen] == raw;
    var start := HeadersStart(raw);
    assert start <= |raw|;
    assert buf[start..head.headLen] == raw[start..head.headLen];
    assert buf[..start] == raw[..start];
  }

  lemma ForwardHeadLocal(buf: string, head: RequestHead, target: string, host: string, peer: Option<string>)
    requires head.headLen <= |buf|
    ensures ForwardHead(buf, head, target, host, peer) == ForwardHead(buf[..head.headLen], head, target, host, peer)
  {
    var raw := buf[..head.headLen];
    assert raw[..head.headLen] == raw;
    var start := HeadersStart(raw);
    assert start <= |raw|;
    assert buf[start..head.headLen] == raw[start..head.headLen];
  }

  method ReadResponseHead(reliable: bool, src0: string, requestMethod: string)
    returns (parsed: Parsed<ResponseHead>, io: Io, buf: string, filled: nat, src: string)
    ensures filled <= |buf|
    ensures reliable ==> !io.Broken?
    ensures !io.Broken? ==> buf[..filled] + src == src0
    ensures io.Done? ==> parsed == ResponseOf(buf[..filled], requestMethod) && !parsed.Partial?
    ensures io.Eof? ==> src == "" && ResponseOf(buf[..filled], requestMethod).Partial?
  {
    buf, filled, src, io, parsed := "", 0, src0, Done, Partial;
    assert buf[..filled] == "";
    while true
      invariant filled <= |buf|
      invariant buf[..filled] + src == src0
      decreases |src|
    {
      if filled > 0 {
        parsed := ParseResponse(buf[..filled], requestMethod);
        if !parsed.Partial? {
          io := Done;
          return;
        }
      }
      ghost var seen := buf[..filled];
      assert ResponseOf(seen, requestMethod).Partial?;
      io, buf, filled, src := ReadMore(reliable, buf, filled, src);
      if !io.Done? {
        return;
      }
    }
  }

  /** Write what is buffered behind the response head. */
  method SendFront(reliable: bool, buffered: string, n: nat) returns (ok: bool, sent: string)
    requires n <= |buffered|
    ensures reliable ==> ok
    ensures sent <= buffered[..n] && (ok <==> sent == buffered[..n])
  {
    ok, sent := true, "";
    if n > 0 {
      ok, sent := WriteAll(reliable, buffered[..n]);
    }
  }

  /** Relay a response body: what is buffered behind the head, then the rest of the stream. */
  method SendReplyBody(reliable: bool, body: BodyLength, buffered: string, src: string, buf0: string) returns (io: Io, sent: string)
    ensures sent <= buffered + src
    ensures io.Done? ==> (body.Empty? ==> sent == "") && (body.Fixed? ==> |sent| == body.length)
    ensures io.Done? && body.UntilClose? ==> sent == buffered + src
    ensures reliable ==> !io.Broken?
    ensures io.Eof? ==> body.Fixed? && |sent| < body.length && sent == buffered + src
  {
    sent, io := "", Done;
    if body.Empty? {
      return;
    }
    var n := if body.Fixed? && body.length < |buffered| then body.length else |buffered|;
    var ok: bool;
    ok, sent := SendFront(reliable, buffered, n);
    CutAndRejoin(buffered, n, src);
    if !ok {
      return Broken, sent;
    }
    if body.Fixed? && n == body.length {
      return;
    }
    assert buffered[..n] == buffered;
    var more, src', buf: string;
    match body {
      case Fixed(len) =>
        io, more, src', buf := RelayExact(reliable, src, buf0, len - n);
      case Chunked =>
        io, more, src', buf := RelayChunked(reliable, src, buf0);
      case UntilClose =>
        io, more := RelayUntilClose(reliable, src, buf0);
    }
    PrefixGrows(buffered, more, src);
    sent := sent + more;
  }

  /** Write a proxy-made error; the code does not look at whether the write succeeds. */
  method WriteError(reliable: bool, end: End) returns (put: string)
    ensures put <= ErrorBytes(end) && (reliable ==> put == ErrorBytes(end))
  {
    var ok: bool;
    ok, put := WriteAll(reliable, ErrorBytes(end));
  }

  method RelayResponse(reliable: bool, src0: string, requestMethod: string, keepAlive: bool)
    returns (reply: Reply, end: ReplyEnd, upstreamReusable: bool, downstreamReusable: bool, put: string)
    ensures end.Answered? <==> reply.Relayed? && reply.finished
    ensures reply.Relayed? ==> ReplyFaithful(src0, requestMethod, reply) && put == ReplyBytes(reply)
    ensures reply.Relayed? ==> reply.keepAlive == (keepAlive && !reply.head.body.UntilClose?)
    ensures end.Answered? ==> downstreamReusable == reply.keepAlive
    ensures end.Answered? ==> upstreamReusable == (!reply.head.closeRequested && !reply.head.body.UntilClose?)
    ensures !end.Answered? ==> !upstreamReusable && !downstreamReusable
    ensures end.BadUpstream? ==> reply.Silent? && ResponseOf(src0, requestMethod).Invalid? && put <= ErrorBytes(End.BadUpstream)
    ensures end.BadUpstream? && reliable ==> put == ErrorBytes(End.BadUpstream)
    ensures end.UpstreamGone? ==> reply.Silent? && ResponseOf(src0, requestMethod).Partial? && put == ""
    ensures end.ReplyBroken? && reply.Silent? ==> HeadCut(src0, requestMethod, keepAlive, put)
    ensures end.ReplyBroken? && reliable ==> reply.Relayed? && ReplyCut(src0, reply)
  {
    reply, upstreamReusable, downstreamReusable, put := Silent, false, false, "";
    var parsed, io, buf, filled, src := ReadResponseHead(reliable, src0, requestMethod);
    if io.Broken? {
      end := ReplyEnd.ReplyBroken;
      return;
    }
    if io.Eof? {
      assert buf[..filled] + src == buf[..filled];
      end := ReplyEnd.UpstreamGone;
      return;
    }
    ResponseStable(buf[..filled], src, requestMethod);
    if parsed.Invalid? {
      put := WriteError(reliable, End.BadUpstream);
      end := ReplyEnd.BadUpstream;
      return;
    }
    reply, put := SendReply(reliable, parsed.head, buf[..filled], src, buf, requestMethod, keepAlive);
    if !reply.Relayed? || !reply.finished {
      end := ReplyEnd.ReplyBroken;
      return;
    }
    end := Answered;
    upstreamReusable := !reply.head.closeRequested && !reply.head.body.UntilClose?;
    downstreamReusable := reply.keepAlive;
  }

  /** Write the rewritten head and relay the body behind it. */
  method SendReply(reliable: bool, head: ResponseHead, whole: string, src: string, buf: string, requestMethod: string, keepAlive: bool)
    returns (reply: Reply, put: string)
    requires ResponseOf(whole, requestMethod) == Complete(head)
    ensures reply.Relayed? ==> ReplyFaithful(whole + src, requestMethod, reply) && put == ReplyBytes(reply)
    ensures reply.Relayed? ==> reply.head == head && reply.keepAlive == (keepAlive && !head.body.UntilClose?)
    ensures reply.Silent? ==> HeadCut(whole + src, requestMethod, keepAlive, put)
    ensures reliable ==> reply.Relayed? && (reply.finished || ReplyCut(whole + src, reply))
  {
    ResponseHeadAlone(whole, requestMethod);
    var downstreamKeep := keepAlive && !head.body.UntilClose?;
    var sentHead := WriteReturnHead(whole, head, downstreamKeep);
    ReturnHeadLocal(whole, head, downstreamKeep);
    var ok: bool;
    ok, put := WriteAll(reliable, sentHead);
    if !ok {
      HeadCutHere(head, whole, src, requestMethod, keepAlive, put);
      reply := Silent;
      return;
    }
    var raw, buffered := whole[..head.headLen], whole[head.headLen..];
    var io, sent := SendReplyBody(reliable, head.body, buffered, src, buf);
    PrefixBehind(whole, head.headLen, src, sent);
    reply := Relayed(head, raw, sentHead, sent, downstreamKeep, io.Done?);
    put := sentHead + sent;
  }

  lemma HeadCutHere(head: ResponseHead, whole: string, src: string, requestMethod: string, keepAlive: bool, put: string)
    requires ResponseOf(whole, requestMethod) == Complete(head) && head.headLen <= |whole|
    requires put <= ReturnHead(whole, head, keepAlive && !head.body.UntilClose?)
    ensures HeadCut(whole + src, requestMethod, keepAlive, put)
  {
    ResponseStable(whole, src, requestMethod);
    ReturnHeadStable(head, whole, src, keepAlive && !head.body.UntilClose?);
  }

  lemma ReturnHeadStable(head: ResponseHead, whole: string, src: string, keep: bool)
    requires head.headLen <= |whole|
    ensures ReturnHead(whole + src, head, keep) == ReturnHead(whole, head, keep)
  {
    assert (whole + src)[..head.headLen] == whole[..head.headLen];
    SameHeadBytes(whole + src, whole, head, keep);
  }

  /** A returned head depends on the head's bytes alone. */
  lemma SameHeadBytes(a: string, b: string, head: ResponseHead, keep: bool)
    requires head.headLen <= |a| && head.headLen <= |b| && a[..head.headLen] == b[..head.headLen]
    ensures ReturnHead(a, head, keep) == ReturnHead(b, head, keep)
  {
    ReturnHeadLocal(a, head, keep);
    ReturnHeadLocal(b, head, keep);
  }

  lemma PrefixBehind(whole: string, n: nat, src: string, sent: string)
    requires n <= |whole| && sent <= whole[n..] + src
    ensures whole[..n] + sent <= whole + src
    ensures sent == whole[n..] + src ==> whole[..n] + sent == whole + src
  {
    assert whole + src == whole[..n] + (whole[n..] + src);
  }

  // ----- the keep-alive loop -----------------------------------------------------------

  /** One request whose head was sent upstream, with what was sent for it in both directions. */
  datatype Exchange = Exchange(head: RequestHead, raw: string, sentHead: string, sentBody: string, reply: Reply)

  /** Why a connection ended. */
  datatype End =
    | ClientClosed | BadRequest | HeadTooLarge | Http2Upgrade | NotFound | NoUpstream | IoFailed
    | BodyCut | BodyBroken | BadUpstream | UpstreamGone | ReplyBroken | AnnouncedClose

  /** The ends that come between two requests: the loop had gone back to reading. */
  predicate BeforeNext(end: End) {
    end.ClientClosed? || end.BadRequest? || end.HeadTooLarge? || end.Http2Upgrade?
    || end.NotFound? || end.NoUpstream? || end.IoFailed?
  }

  /** Status and reason of the proxy-made error that goes with an end. */
  function ErrorCode(end: End): Option<string> {
    match end
    case BadRequest => Some("400 Bad Request")
    case HeadTooLarge => Some("431 Request Header Fields Too Large")
    case NotFound => Some("404 Not Found")
    case NoUpstream => Some("502 Bad Gateway")
    case BadUpstream => Some("502 Bad Gateway")
    case _ => None
  }

  function ErrorBytes(end: End): string {
    match ErrorCode(end)
    case None => ""
    case Some(code) => ErrorResponse(code)
  }

  /** The client bytes accounted for by a list of exchanges. */
  function Consumed(xs: seq<Exchange>): string {
    if xs == [] then "" else Consumed(xs[..|xs| - 1]) + xs[|xs| - 1].raw + xs[|xs| - 1].sentBody
  }

  /** The bytes written to the client by a list of exchanges. */
  function Replies(xs: seq<Exchange>): string {
    if xs == [] then "" else Replies(xs[..|xs| - 1]) + ReplyBytes(xs[|xs| - 1].reply)
  }

  /** The head was parsed from its own bytes, routed, and forwarded as rewritten. */
  ghost predicate Forwarded(env: Env, i: nat, x: Exchange) {
    && RequestOf(x.raw) == Complete(x.head) && x.head.headLen == |x.raw|
    && RouteFor(env, i, x.head).Some? && env.connects(i)
    && var route := RouteFor(env, i, x.head).value;
       x.sentHead == ForwardHead(x.raw, x.head, route.target, route.address, env.peer)
  }

  ghost predicate Answers(env: Env, i: nat, x: Exchange) {
    x.reply.Relayed? ==>
      && BodyDone(x.head.body, x.sentBody)
      && ReplyFaithful(env.replies(i), x.head.method_, x.reply)
      && x.reply.keepAlive == (KeepWanted(x.head, i) && !x.reply.head.body.UntilClose?)
  }

  /** The exchange ran to its end: the whole body went upstream and the whole reply came back. */
  ghost predicate Finished(x: Exchange) {
    BodyDone(x.head.body, x.sentBody) && x.reply.Relayed? && x.reply.finished
  }

  /** A prefix of at least 64 KiB that is still not a whole head. */
  ghost predicate Overlong(rest: string, n: nat) {
    MAX_HEAD_SIZE <= n <= |rest| && RequestOf(rest[..n]).Partial?
  }

  /** Why the run ended, read off the bytes that were never forwarded and off the upstream's reply. */
  ghost predicate Explains(end: End, env: Env, xs: seq<Exchange>, rest: string) {
    match end
    case BadRequest => RequestOf(rest).Invalid? && NotH2(rest, |xs|)
    case HeadTooLarge => NotH2(rest, |xs|) && exists n :: Overlong(rest, n)
    case NotFound => NotH2(rest, |xs|) && RequestOf(rest).Complete? && RouteFor(env, |xs|, RequestOf(rest).head).None?
    case NoUpstream =>
      NotH2(rest, |xs|) && RequestOf(rest).Complete? && RouteFor(env, |xs|, RequestOf(rest).head).Some? && !env.connects(|xs|)
    case ClientClosed => NoRequest(rest, |xs|)
    case Http2Upgrade => xs == [] && DetectH2(rest) == Some(true)
    case IoFailed => !env.reliable
    case _ => |xs| > 0 && Ends(end, env, |xs| - 1, xs[|xs| - 1], rest)
  }

  /** How an exchange can be the last one. */
  ghost predicate Ends(end: End, env: Env, i: nat, x: Exchange, rest: string) {
    match end
    case BodyCut => rest == "" && x.head.body.Fixed? && |x.sentBody| < x.head.body.length
    case BadUpstream => BodyDone(x.head.body, x.sentBody) && x.reply.Silent? && ResponseOf(env.replies(i), x.head.method_).Invalid?
    case UpstreamGone => BodyDone(x.head.body, x.sentBody) && x.reply.Silent? && ResponseOf(env.replies(i), x.head.method_).Partial?
    case AnnouncedClose => Finished(x) && !x.reply.keepAlive
    case BodyBroken => !env.reliable && x.reply.Silent?
    case ReplyBroken =>
      && BodyDone(x.head.body, x.sentBody) && !Finished(x)
      && (env.reliable ==> x.reply.Relayed? && ReplyCut(env.replies(i), x.reply))
    case _ => false
  }

  ghost predicate LastAnnouncesClose(xs: seq<Exchange>) {
    |xs| > 0 && Finished(xs[|xs| - 1]) && !xs[|xs| - 1].reply.keepAlive
  }

  /**
   * What the client was sent: the replies in order, then the error that goes with
   * the end, as far as writing it succeeded, and nothing after it.
   */
  ghost predicate Wrote(env: Env, xs: seq<Exchange>, end: End, log: string) {
    if end.ReplyBroken? && |xs| > 0 && xs[|xs| - 1].reply.Silent? then
      && Replies(xs) <= log
      && HeadCut(env.replies(|xs| - 1), xs[|xs| - 1].head.method_, KeepWanted(xs[|xs| - 1].head, |xs| - 1), log[|Replies(xs)|..])
    else
      Followed(env.reliable, Replies(xs), ErrorBytes(end), log)
  }

  /** Behind `before` stands `due`, whole if writing is reliable and otherwise as far as it got. */
  ghost predicate Followed(reliable: bool, before: string, due: string, log: string) {
    before <= log <= before + due && (reliable ==> log == before + due)
  }

  /** Whether the proxy wants to keep the connection after request `i`, whatever the reply. */
  predicate KeepWanted(head: RequestHead, i: nat) {
    !head.closeRequested && i + 1 < MAX_REQUESTS
  }

  lemma DetectStable(s: string, more: string)
    requires DetectH2(s) == Some(true)
    ensures DetectH2(s + more) == Some(true)
  {
    assert (s + more)[..|H2_PREFACE|] == s[..|H2_PREFACE|];
  }

  lemma NotH2Stable(s: string, more: string, served: nat)
    requires NotH2(s, served)
    ensures NotH2(s + more, served)
  {
    if served == 0 {
      var n := if |s| < |H2_PREFACE| then |s| else |H2_PREFACE|;
      assert (s + more)[..n] == s[..n];
      assert H2_PREFACE[..n] == H2_PREFACE[..if |s + more| < |H2_PREFACE| then |s + more| else |H2_PREFACE|][..n];
      assert (s + more)[..if |s + more| < |H2_PREFACE| then |s + more| else |H2_PREFACE|][..n] == s[..n];
    }
  }

  lemma ConsumedSnoc(xs: seq<Exchange>, x: Exchange)
    ensures Consumed(xs + [x]) == Consumed(xs) + x.raw + x.sentBody
  {
    assert (xs + [x])[..|xs|] == xs;
  }

  /** Head outcomes that end the run explain themselves on all the bytes left. */
  lemma EndExplained(outcome: HeadOutcome, env: Env, xs: seq<Exchange>, seen: string, src: string)
    requires HeadRead(outcome, seen, src, |xs|) && !outcome.Got? && !outcome.Failed?
    ensures Explains(EndOf(outcome), env, xs, seen + src)
  {
    match outcome {
      case Malformed =>
        RequestStable(seen, src);
        NotH2Stable(seen, src, |xs|);
      case TooLarge =>
        assert (seen + src)[..|seen|] == seen;
        assert Overlong(seen + src, |seen|);
        NotH2Stable(seen, src, |xs|);
      case Upgrade => DetectStable(seen, src);
      case Ended => assert seen + src == seen;
    }
  }

  /** UTF-8 text is made of bytes. */
  lemma {:induction false} Utf8Octets(s: string)
    requires ValidUtf8(s)
    ensures Octets(s)
  {
    if s != "" {
      var b := s[0] as int;
      var n := if b < 0x80 then 1 else if b <= 0xDF then 2 else if b <= 0xEF then 3 else 4;
      Utf8Octets(s[n..]);
      forall i | 0 <= i < |s| ensures s[i] as int < 256 { if i >= n { assert s[i] == s[n..][i - n]; } }
    }
  }

  lemma HostOctets(buf: string)
    requires RequestOf(buf).Complete? && RequestOf(buf).head.host.Some?
    ensures Octets(RequestOf(buf).head.host.value)
  {
    Utf8Octets(RequestOf(buf).head.host.value);
  }

  /** Route the request and write the head to send upstream. */
  method PrepareForward(env: Env, i: nat, head: RequestHead, whole: string) returns (route: Option<Route>, sentHead: string)
    requires head.headLen <= |whole|
    requires head.host.Some? ==> Octets(head.host.value)
    ensures route == RouteFor(env, i, head)
    ensures route.Some? ==>
              sentHead == ForwardHead(whole[..head.headLen], head, route.value.target, route.value.address, env.peer)
  {
    sentHead := "";
    var action := RouteTable.Lookup(env.tables(i), env.isa, head.host, PathOf(head.target));
    if action.None? {
      return None, sentHead;
    }
    var r := Route(env.select(i, action.value), ForwardTarget(action.value.target.rewrite, head.target));
    sentHead := WriteForwardHead(whole, head, r.target, r.address, env.peer);
    ForwardHeadLocal(whole, head, r.target, r.address, env.peer);
    route := Some(r);
  }

  /** The exchange takes the next bytes of the stream, and leaves the others in order. */
  ghost predicate Accounts(before: string, x: Exchange, end: Option<End>, after: string) {
    && x.raw + x.sentBody <= before
    && (end != Some(BodyBroken) ==> x.raw + x.sentBody + after == before)
  }

  /** The loop goes on exactly after a finished exchange that announced keep-alive. */
  ghost predicate Decides(env: Env, i: nat, x: Exchange, end: Option<End>, after: string) {
    && (end.None? <==> Finished(x) && x.reply.keepAlive)
    && (end == Some(AnnouncedClose) <==> Finished(x) && !x.reply.keepAlive)
    && (end.Some? ==> Ends(end.value, env, i, x, after))
  }

  /** What an exchange wrote to the client. */
  ghost predicate Puts(env: Env, i: nat, x: Exchange, end: Option<End>, put: string) {
    if x.reply.Relayed? then put == ReplyBytes(x.reply)
    else if end == Some(End.BadUpstream) then put <= ErrorBytes(End.BadUpstream) && (env.reliable ==> put == ErrorBytes(End.BadUpstream))
    else if end == Some(End.ReplyBroken) then HeadCut(env.replies(i), x.head.method_, KeepWanted(x.head, i), put)
    else put == ""
  }

  /** What one pass of the loop guarantees about the exchange and the bytes around it. */
  ghost predicate Served(env: Env, i: nat, before: string, x: Exchange, end: Option<End>, after: string, put: string) {
    && Forwarded(env, i, x) && Answers(env, i, x) && Accounts(before, x, end, after)
    && Decides(env, i, x, end, after) && Puts(env, i, x, end, put)
  }

  lemma MakeForwarded(env: Env, i: nat, head: RequestHead, whole: string, sentHead: string, body: string, reply: Reply)
    requires RequestOf(whole) == Complete(head) && head.headLen <= |whole| && RouteFor(env, i, head).Some? && env.connects(i)
    requires var r := RouteFor(env, i, head).value;
             sentHead == ForwardHead(whole[..head.headLen], head, r.target, r.address, env.peer)
    ensures Forwarded(env, i, Exchange(head, whole[..head.headLen], sentHead, body, reply))
  {
    HeadAlone(whole);
  }

  /** How the end of a reply ends the connection, if it does. */
  function AfterReply(rend: ReplyEnd, goesOn: bool): Option<End> {
    match rend
    case Answered => if goesOn then None else Some(AnnouncedClose)
    case BadUpstream => Some(End.BadUpstream)
    case UpstreamGone => Some(End.UpstreamGone)
    case ReplyBroken => Some(End.ReplyBroken)
  }

  /** Relay the reply, and decide whether the connection goes on. */
  method FinishExchange(env: Env, i: nat, head: RequestHead, raw: string, sentHead: string, body: string, ghost after: string)
    returns (x: Exchange, end: Option<End>, put: string)
    requires i < MAX_REQUESTS && BodyDone(head.body, body)
    ensures x.head == head && x.raw == raw && x.sentHead == sentHead && x.sentBody == body
    ensures Answers(env, i, x) && Decides(env, i, x, end, after) && Puts(env, i, x, end, put) && end != Some(BodyBroken)
  {
    var keepAlive := KeepWanted(head, i);
    var reply, rend, upstreamReusable, downstreamReusable;
    reply, rend, upstreamReusable, downstreamReusable, put := RelayResponse(env.reliable, env.replies(i), head.method_, keepAlive);
    x := Exchange(head, raw, sentHead, body, reply);
    end := AfterReply(rend, keepAlive && downstreamReusable);
  }

  /** Relay the body upstream and the reply downstream, once the head has been sent. */
  method RelayExchange(env: Env, i: nat, head: RequestHead, sentHead: string, buf0: string, filled0: nat, src0: string)
    returns (x: Exchange, end: Option<End>, buf: string, filled: nat, src: string, put: string)
    requires filled0 <= |buf0| && i < MAX_REQUESTS && head.headLen <= filled0
    ensures filled <= |buf|
    ensures x.head == head && x.raw == buf0[..filled0][..head.headLen] && x.sentHead == sentHead
    ensures Answers(env, i, x) && Accounts(buf0[..filled0] + src0, x, end, buf[..filled] + src)
    ensures Decides(env, i, x, end, buf[..filled] + src) && Puts(env, i, x, end, put)
  {
    var raw := buf0[..filled0][..head.headLen];
    var io, body: string;
    io, body, buf, filled, src := RelayRequestBody(env.reliable, buf0, filled0, src0, head);
    BehindHead(buf0[..filled0], raw, buf0[head.headLen..filled0], src0, body, buf[..filled], src);
    if !io.Done? {
      x := Exchange(head, raw, sentHead, body, Silent);
      end, put := Some(if io.Eof? then BodyCut else BodyBroken), "";
      return;
    }
    x, end, put := FinishExchange(env, i, head, raw, sentHead, body, buf[..filled] + src);
  }

  /** One pass of the loop after a head has been read: route, forward, relay both ways. */
  method ServeRequest(env: Env, i: nat, head: RequestHead, buf0: string, filled0: nat, src0: string)
    returns (x: Option<Exchange>, end: Option<End>, buf: string, filled: nat, src: string, put: string)
    requires filled0 <= |buf0| && RequestOf(buf0[..filled0]) == Complete(head) && i < MAX_REQUESTS
    ensures filled <= |buf|
    ensures x.Some? ==> Served(env, i, buf0[..filled0] + src0, x.value, end, buf[..filled] + src, put)
    ensures x.None? ==> buf == buf0 && filled == filled0 && src == src0
    ensures x.None? ==> end.Some? && end.value in {NotFound, NoUpstream, IoFailed} && put <= ErrorBytes(end.value)
    ensures x.None? && env.reliable ==> end != Some(IoFailed) && put == ErrorBytes(end.value)
    ensures x.None? && end == Some(NotFound) ==> RouteFor(env, i, head).None?
    ensures x.None? && end == Some(NoUpstream) ==> RouteFor(env, i, head).Some? && !env.connects(i)
  {
    buf, filled, src, x, put := buf0, filled0, src0, None, "";
    var whole := buf0[..filled0];
    HeadAlone(whole);
    if head.host.Some? { HostOctets(whole); }
    var route, sentHead := PrepareForward(env, i, head, whole);
    if route.None? {
      end := Some(NotFound);
      put := WriteError(env.reliable, NotFound);
      return;
    }
    if !env.connects(i) {
      end := Some(NoUpstream);
      put := WriteError(env.reliable, NoUpstream);
      return;
    }
    var ok, _ := WriteAll(env.reliable, sentHead);
    if !ok {
      end := Some(IoFailed);
      return;
    }
    var done: Exchange;
    done, end, buf, filled, src, put := RelayExchange(env, i, head, sentHead, buf, filled, src);
    MakeForwarded(env, i, head, whole, sentHead, done.sentBody, done.reply);
    x := Some(done);
  }

  lemma BehindHead(whole: string, raw: string, behind: string, src0: string, body: string, seen: string, src: string)
    requires whole == raw + behind && body <= behind + src0
    ensures raw + body <= whole + src0
    ensures body + seen + src == behind + src0 ==> raw + body + (seen + src) == whole + src0
  {
    assert whole + src0 == raw + (behind + src0);
    if body + seen + src == behind + src0 {
      assert raw + body + (seen + src) == raw + (body + seen + src);
    }
  }

  /** Every exchange was routed, forwarded and answered faithfully. */
  ghost predicate AllFaithful(env: Env, xs: seq<Exchange>) {
    AllBy(FaithfulIn(env), xs)
  }

  ghost function FaithfulIn(env: Env): (nat, Exchange) -> bool {
    (i: nat, x: Exchange) => Forwarded(env, i, x) && Answers(env, i, x)
  }

  ghost predicate AllBy(ok: (nat, Exchange) -> bool, xs: seq<Exchange>) {
    forall i: nat {:trigger Nth(xs, i)} :: i < |xs| ==> ok(i, Nth(xs, i))
  }

  lemma AllBySnoc(ok: (nat, Exchange) -> bool, xs: seq<Exchange>, x: Exchange)
    requires AllBy(ok, xs) && ok(|xs|, x)
    ensures AllBy(ok, xs + [x])
  {
    forall i: nat | i < |xs + [x]| ensures ok(i, Nth(xs + [x], i)) {
      if i < |xs| { assert Nth(xs + [x], i) == Nth(xs, i); }
    }
  }

  ghost function Nth(xs: seq<Exchange>, i: nat): Exchange
    requires i < |xs|
  {
    xs[i]
  }

  /** Every exchange ran to its end and announced keep-alive. */
  ghost predicate AllKeptAlive(xs: seq<Exchange>) {
    xs != [] ==>
      var n := |xs| - 1;
      AllKeptAlive(xs[..n]) && Finished(xs[n]) && xs[n].reply.keepAlive
  }

  lemma FaithfulAt(env: Env, xs: seq<Exchange>, i: nat)
    requires AllFaithful(env, xs) && i < |xs|
    ensures Forwarded(env, i, xs[i]) && Answers(env, i, xs[i])
  {
    assert Nth(xs, i) == xs[i];
    assert FaithfulIn(env)(i, xs[i]);
  }

  lemma FaithfulSnoc(env: Env, xs: seq<Exchange>, x: Exchange)
    requires AllFaithful(env, xs) && Forwarded(env, |xs|, x) && Answers(env, |xs|, x)
    ensures AllFaithful(env, xs + [x])
  {
    assert FaithfulIn(env)(|xs|, x);
    AllBySnoc(FaithfulIn(env), xs, x);
  }

  lemma {:induction false} KeptAliveAt(xs: seq<Exchange>, i: nat)
    requires AllKeptAlive(xs) && i < |xs|
    ensures Finished(xs[i]) && xs[i].reply.keepAlive
  {
    if i < |xs| - 1 { KeptAliveAt(xs[..|xs| - 1], i); }
  }

  /** Between requests: the exchanges so far, the buffered bytes and the unread bytes make up the stream. */
  ghost predicate Between(env: Env, stream: string, xs: seq<Exchange>, seen: string, src: string, log: string) {
    && |xs| < MAX_REQUESTS && AllFaithful(env, xs) && AllKeptAlive(xs)
    && Consumed(xs) + (seen + src) == stream && log == Replies(xs)
  }

  /** What holds when the connection is over. */
  ghost predicate Outcome(env: Env, stream: string, xs: seq<Exchange>, end: End, rest: string, log: string) {
    Course(env, stream, xs, end, rest) && Wrote(env, xs, end, log)
  }

  /** What became of the client's bytes. */
  ghost predicate Course(env: Env, stream: string, xs: seq<Exchange>, end: End, rest: string) {
    && |xs| <= MAX_REQUESTS && AllFaithful(env, xs)
    && (xs != [] ==> AllKeptAlive(xs[..|xs| - 1]))
    && (AllKeptAlive(xs) <==> BeforeNext(end))
    && Consumed(xs) <= stream
    && (end != IoFailed && end != BodyBroken ==> Consumed(xs) + rest == stream)
    && (end == AnnouncedClose <==> LastAnnouncesClose(xs))
    && Explains(end, env, xs, rest)
  }

  /** The connection ends before another head is forwarded. */
  lemma EndBetween(env: Env, stream: string, xs: seq<Exchange>, seen: string, src: string, end: End, log: string, put: string)
    requires Between(env, stream, xs, seen, src, log) && BeforeNext(end) && Explains(end, env, xs, seen + src)
    requires put <= ErrorBytes(end) && (env.reliable ==> put == ErrorBytes(end))
    ensures Outcome(env, stream, xs, end, seen + src, log + put)
  {
    PutFollows(env.reliable, log, put, ErrorBytes(end));
  }

  /** A run that fails while reading owes nothing about the bytes left. */
  lemma EndFailed(env: Env, stream: string, xs: seq<Exchange>, seen: string, src: string, rest: string, log: string)
    requires Between(env, stream, xs, seen, src, log) && !env.reliable
    ensures Outcome(env, stream, xs, IoFailed, rest, log + "")
  {
    assert log + "" == log;
  }

  /** Reading on moves bytes into the buffer; the account stays. */
  lemma ReadOn(env: Env, stream: string, xs: seq<Exchange>, seen: string, src: string, seen': string, src': string, log: string)
    requires Between(env, stream, xs, seen, src, log) && seen' + src' == seen + src
    ensures Between(env, stream, xs, seen', src', log)
  {
  }

  /** The connection ends at a head: what was read says why, and the error written goes with it. */
  lemma EndAtHead(env: Env, stream: string, xs: seq<Exchange>, outcome: HeadOutcome, seen0: string, src0: string,
                  seen: string, src: string, log: string, put: string)
    requires Between(env, stream, xs, seen0, src0, log) && seen + src == seen0 + src0
    requires HeadRead(outcome, seen, src, |xs|) && !outcome.Got? && !outcome.Failed?
    requires put <= ErrorBytes(EndOf(outcome)) && (env.reliable ==> put == ErrorBytes(EndOf(outcome)))
    ensures Outcome(env, stream, xs, EndOf(outcome), seen + src, log + put)
  {
    ReadOn(env, stream, xs, seen0, src0, seen, src, log);
    EndExplained(outcome, env, xs, seen, src);
    EndBetween(env, stream, xs, seen, src, EndOf(outcome), log, put);
  }

  /** The end of a turn that found no complete head. */
  method EndTurn(env: Env, ghost stream: string, xs: seq<Exchange>, outcome: HeadOutcome,
                 ghost seen0: string, ghost src0: string, ghost seen: string, ghost src: string, ghost log: string)
    returns (end: End, put: string)
    requires Between(env, stream, xs, seen0, src0, log) && HeadRead(outcome, seen, src, |xs|) && !outcome.Got?
    requires outcome.Failed? ==> !env.reliable
    requires !outcome.Failed? ==> seen + src == seen0 + src0
    ensures Outcome(env, stream, xs, end, seen + src, log + put)
  {
    end := EndOf(outcome);
    if outcome.Failed? {
      put := "";
      EndFailed(env, stream, xs, seen0, src0, seen + src, log);
    } else {
      put := WriteError(env.reliable, end);
      EndAtHead(env, stream, xs, outcome, seen0, src0, seen, src, log, put);
    }
  }

  /** One turn of the keep-alive loop; `put` is what it writes to the client. */
  method Turn(env: Env, ghost stream: string, xs0: seq<Exchange>, buf0: string, filled0: nat, src0: string, ghost log0: string)
    returns (xs: seq<Exchange>, end: Option<End>, buf: string, filled: nat, src: string, put: string)
    requires filled0 <= |buf0| && Between(env, stream, xs0, buf0[..filled0], src0, log0)
    ensures filled <= |buf|
    ensures end.None? ==> |xs| == |xs0| + 1 && Between(env, stream, xs, buf[..filled], src, log0 + put)
    ensures end.Some? ==> Outcome(env, stream, xs, end.value, buf[..filled] + src, log0 + put)
  {
    var outcome: HeadOutcome;
    outcome, buf, filled, src := ReadHead(env.reliable, buf0, filled0, src0, |xs0|);
    if !outcome.Got? {
      var stop: End;
      stop, put := EndTurn(env, stream, xs0, outcome, buf0[..filled0], src0, buf[..filled], src, log0);
      return xs0, Some(stop), buf, filled, src, put;
    }
    ReadOn(env, stream, xs0, buf0[..filled0], src0, buf[..filled], src, log0);
    xs, end, buf, filled, src, put := Handle(env, stream, xs0, outcome.head, buf, filled, src, log0);
  }

  /** The part of a turn that follows a complete head. */
  method Handle(env: Env, ghost stream: string, xs0: seq<Exchange>, head: RequestHead, buf0: string, filled0: nat, src0: string,
                ghost log0: string)
    returns (xs: seq<Exchange>, end: Option<End>, buf: string, filled: nat, src: string, put: string)
    requires filled0 <= |buf0| && RequestOf(buf0[..filled0]) == Complete(head) && NotH2(buf0[..filled0], |xs0|)
    requires Between(env, stream, xs0, buf0[..filled0], src0, log0)
    ensures filled <= |buf|
    ensures end.None? ==> |xs| == |xs0| + 1 && Between(env, stream, xs, buf[..filled], src, log0 + put)
    ensures end.Some? ==> Outcome(env, stream, xs, end.value, buf[..filled] + src, log0 + put)
  {
    xs := xs0;
    var x: Option<Exchange>;
    x, end, buf, filled, src, put := ServeRequest(env, |xs|, head, buf0, filled0, src0);
    if x.None? {
      RequestStable(buf[..filled], src);
      NotH2Stable(buf[..filled], src, |xs|);
      EndBetween(env, stream, xs, buf[..filled], src, end.value, log0, put);
      return;
    }
    AfterExchange(env, xs, x.value, end, buf0[..filled0] + src0, buf[..filled], src, stream, log0, put);
    xs := xs + [x.value];
  }

  lemma AfterExchange(env: Env, xs: seq<Exchange>, x: Exchange, stop: Option<End>, before: string,
                      seen: string, src: string, stream: string, log: string, put: string)
    requires |xs| < MAX_REQUESTS && AllFaithful(env, xs) && AllKeptAlive(xs) && log == Replies(xs)
    requires Served(env, |xs|, before, x, stop, seen + src, put) && Consumed(xs) + before == stream
    ensures stop.None? ==> Between(env, stream, xs + [x], seen, src, log + put)
    ensures stop.Some? ==> Outcome(env, stream, xs + [x], stop.value, seen + src, log + put)
  {
    TakeCourse(env, xs, x, stop, before, seen + src, stream);
    EndedSilent(env, |xs|, x, stop, seen + src);
    TakeReply(env, xs, x, stop, log, put);
  }

  lemma EndedSilent(env: Env, i: nat, x: Exchange, stop: Option<End>, after: string)
    requires Decides(env, i, x, stop, after)
    ensures stop.None? ==> x.reply.Relayed?
    ensures stop.Some? ==> !BeforeNext(stop.value) && (stop.value.BadUpstream? ==> x.reply.Silent?)
  {
  }

  lemma TakeCourse(env: Env, xs: seq<Exchange>, x: Exchange, stop: Option<End>, before: string, after: string, stream: string)
    requires |xs| < MAX_REQUESTS && AllFaithful(env, xs) && AllKeptAlive(xs)
    requires Forwarded(env, |xs|, x) && Answers(env, |xs|, x) && Accounts(before, x, stop, after) && Decides(env, |xs|, x, stop, after)
    requires Consumed(xs) + before == stream
    ensures stop.None? ==> |xs + [x]| < MAX_REQUESTS && AllFaithful(env, xs + [x]) && AllKeptAlive(xs + [x])
                           && Consumed(xs + [x]) + after == stream
    ensures stop.Some? ==> Course(env, stream, xs + [x], stop.value, after)
  {
    TakeExchange(env, xs, x, stop, before, after, stream);
  }

  /** Appending a served exchange keeps the log of what the client was sent. */
  lemma TakeReply(env: Env, xs: seq<Exchange>, x: Exchange, stop: Option<End>, log: string, put: string)
    requires log == Replies(xs) && Puts(env, |xs|, x, stop, put)
    requires stop.None? ==> x.reply.Relayed?
    requires stop.Some? ==> !BeforeNext(stop.value) && (stop.value.BadUpstream? ==> x.reply.Silent?)
    ensures stop.None? ==> log + put == Replies(xs + [x])
    ensures stop.Some? ==> Wrote(env, xs + [x], stop.value, log + put)
  {
    assert (xs + [x])[..|xs|] == xs && (xs + [x])[|xs|] == x;
    RepliesSnoc(xs, x);
    if stop.Some? {
      var due := ErrorBytes(stop.value);
      if x.reply.Relayed? {
        NothingDue(stop.value);
        PutFollows(env.reliable, log + put, "", "");
        assert log + put + "" == log + put;
      } else {
        assert log + "" == log;
        LogEnds(log, put);
        if stop.value.BadUpstream? {
          PutFollows(env.reliable, log, put, due);
        } else if put == "" {
          NothingDue(stop.value);
          PutFollows(env.reliable, log, "", "");
        }
      }
    }
  }

  lemma NothingDue(end: End)
    requires !BeforeNext(end) && !end.BadUpstream?
    ensures ErrorBytes(end) == ""
  {
  }

  lemma RepliesSnoc(xs: seq<Exchange>, x: Exchange)
    ensures Replies(xs + [x]) == Replies(xs) + ReplyBytes(x.reply)
  {
    assert (xs + [x])[..|xs|] == xs;
  }

  lemma PutFollows(reliable: bool, before: string, put: string, due: string)
    requires put <= due && (reliable ==> put == due)
    ensures Followed(reliable, before, due, before + put)
  {
    PrefixGrows(before, put, due);
  }

  lemma LogEnds(log: string, put: string)
    ensures log <= log + put && (log + put)[|log|..] == put
  {
  }

  /**
   * The whole run over the client's byte stream, for any way the stream is cut
   * into reads. Every client byte is forwarded in exactly one place or left
   * over; the announced disposition is what the loop then does; `log` is all
   * that the client was sent.
   */
  method ServeConnection(stream: string, env: Env) returns (xs: seq<Exchange>, end: End, rest: string, log: string)
    ensures Outcome(env, stream, xs, end, rest, log)
  {
    var buf, src := "", stream;
    var filled: nat := 0;
    xs, log := [], "";
    assert "" + ("" + stream) == stream;
    while true
      invariant filled <= |buf| && Between(env, stream, xs, buf[..filled], src, log)
      decreases MAX_REQUESTS - |xs|
    {
      var stop: Option<End>;
      var put: string;
      xs, stop, buf, filled, src, put := Turn(env, stream, xs, buf, filled, src, log);
      log := log + put;
      if stop.Some? {
        return xs, stop.value, buf[..filled] + src, log;
      }
    }
  }

  function EndOf(outcome: HeadOutcome): End {
    match outcome
    case Malformed => BadRequest
    case TooLarge => HeadTooLarge
    case Upgrade => Http2Upgrade
    case Ended => ClientClosed
    case _ => IoFailed
  }

  /** Appending a served exchange keeps the history and the byte account. */
  lemma TakeExchange(env: Env, xs: seq<Exchange>, x: Exchange, stop: Option<End>, before: string, after: string, stream: string)
    requires |xs| < MAX_REQUESTS && AllFaithful(env, xs) && AllKeptAlive(xs)
    requires Forwarded(env, |xs|, x) && Answers(env, |xs|, x) && Accounts(before, x, stop, after) && Decides(env, |xs|, x, stop, after)
    requires Consumed(xs) + before == stream
    ensures AllFaithful(env, xs + [x]) && (xs + [x])[..|xs + [x]| - 1] == xs
    ensures stop.None? <==> AllKeptAlive(xs + [x])
    ensures stop.None? ==> |xs| + 1 < MAX_REQUESTS
    ensures Consumed(xs + [x]) <= stream
    ensures stop != Some(BodyBroken) ==> Consumed(xs + [x]) + after == stream
    ensures stop == Some(AnnouncedClose) <==> LastAnnouncesClose(xs + [x])
    ensures stop.Some? ==> !BeforeNext(stop.value) && Explains(stop.value, env, xs + [x], after)
  {
    assert (xs + [x])[..|xs|] == xs && (xs + [x])[|xs|] == x;
    FaithfulSnoc(env, xs, x);
    ConsumedSnoc(xs, x);
    AppendTaken(Consumed(xs), x.raw, x.sentBody, before, after, stream);
  }

  lemma AppendTaken(done: string, raw: string, body: string, before: string, after: string, stream: string)
    requires done + before == stream && raw + body <= before
    ensures done + raw + body <= stream
    ensures raw + body + after == before ==> done + raw + body + after == stream
  {
    var taken := raw + body;
    assert done + raw + body == done + taken;
    assert before == taken + before[|taken|..];
    assert stream == done + taken + before[|taken|..];
    if taken + after == before {
      assert done + taken + after == done + (taken + after);
    }
  }
}
