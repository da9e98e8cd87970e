/**
 * Every header of a rewritten head, name by name: what is kept, what is removed and
 * what the proxy adds.
 */
module ForwardedFields {
  import opened Text
  import opened Http1
  import opened Http1Writer
  import opened Http1Framing
  import opened HopByHop

  // ----- what is removed --------------------------------------------------------------

  ghost predicate HopByHopName(n: string) {
    || n == "connection" || n == "keep-alive" || n == "proxy-authenticate" || n == "proxy-authorization"
    || n == "proxy-connection" || n == "te" || n == "trailer" || n == "upgrade"
  }

  /** A token of some Connection value is this name, and no disposition. */
  ghost predicate NominatedBy(connection: seq<string>, n: string) {
    && n != "" && n != "close" && n != "keep-alive"
    && exists v, t :: v in connection && t in Split(v, ',') && Lower(Trim(t, AsciiSpace)) == n
  }

  ghost predicate EndsAtThisHop(connection: seq<string>, n: string) {
    HopByHopName(n) || NominatedBy(connection, n)
  }

  lemma HopIs(n: string)
    ensures n in HOP_BY_HOP <==> HopByHopName(n)
  {
  }

  lemma {:induction false} InFlatMap(ts: seq<string>, f: string -> seq<string>, n: string)
    ensures n in FlatMap(ts, f) <==> exists t :: t in ts && n in f(t)
  {
    if ts != [] {
      InFlatMap(ts[1..], f, n);
      if n in f(ts[0]) { assert ts[0] in ts; }
    }
  }

  lemma NominatedInIs(v: string, n: string)
    ensures n in NominatedIn(v) <==>
            n != "" && n != "close" && n != "keep-alive" && exists t :: t in Split(v, ',') && Lower(Trim(t, AsciiSpace)) == n
  {
    InFlatMap(Split(v, ','), NominatedToken, n);
  }

  lemma NominatedIs(lines: seq<string>, n: string)
    requires ParseHeaders(lines).Some?
    ensures n in Nominated(lines) <==> NominatedBy(Values(ParseHeaders(lines).value, "connection"), n)
  {
    var vals := Values(ParseHeaders(lines).value, "connection");
    LineFilter(lines);
    InFlatMap(vals, NominatedIn, n);
    if n in Nominated(lines) {
      var v :| v in vals && n in NominatedIn(v);
      NominatedInIs(v, n);
    }
    if NominatedBy(vals, n) {
      var v, t :| v in vals && t in Split(v, ',') && Lower(Trim(t, AsciiSpace)) == n;
      NominatedInIs(v, n);
    }
  }

  // ----- the chain of forwarders ----------------------------------------------------------

  lemma SameBlanks(c: char)
    requires IsFieldChar(c)
    ensures IsBlank(c, AsciiSpace) <==> IsBlank(c, Ows)
  {
  }

  lemma {:induction false} SameLeading(s: string)
    requires FieldText(s)
    ensures DropLeading(s, AsciiSpace) == DropLeading(s, Ows) && FieldText(DropLeading(s, Ows))
  {
    if s != "" {
      SameBlanks(s[0]);
      SameLeading(s[1..]);
    }
  }

  lemma {:induction false} SameTrailing(s: string)
    requires FieldText(s)
    ensures DropTrailing(s, AsciiSpace) == DropTrailing(s, Ows)
  {
    if s != "" {
      SameBlanks(s[|s| - 1]);
      SameTrailing(s[..|s| - 1]);
    }
  }

  lemma SameTrim(s: string)
    requires FieldText(s)
    ensures Trim(s, AsciiSpace) == Trim(s, Ows)
  {
    SameLeading(s);
    SameTrailing(DropLeading(s, Ows));
  }

  const FORWARDED_FOR := "x-forwarded-for"

  lemma ForwardedForName()
    ensures |FORWARDED_FOR| == 15 && !HopByHopName(FORWARDED_FOR)
  {
    assert |"connection"| == 10 && |"keep-alive"| == 10 && |"proxy-authenticate"| == 18 && |"proxy-authorization"| == 19;
    assert |"proxy-connection"| == 16 && |"te"| == 2 && |"trailer"| == 7 && |"upgrade"| == 7;
  }

  lemma ChainLineIs(l: string, nominated: seq<string>)
    requires ParseHeader(l).Some?
    ensures var h := ParseHeader(l).value;
            && (ChainTest(nominated)(l) <==> Lower(h.name) == FORWARDED_FOR && FORWARDED_FOR !in nominated)
            && Trim(LineValue(l), AsciiSpace) == h.value
  {
    LineNameIsHeaderName(l);
    HeaderParts(l);
    HeaderValue(l);
    SameTrim(LineValue(l));
    ForwardedForName();
    HopIs(FORWARDED_FOR);
  }

  /** The chain kept is the last forwarded-for value, unless the name was nominated. */
  lemma {:induction false} ChainIs(lines: seq<string>, nominated: seq<string>)
    requires ParseHeaders(lines).Some?
    ensures var vals := Values(ParseHeaders(lines).value, FORWARDED_FOR);
            Chain(lines, ChainTest(nominated))
            == if vals == [] || FORWARDED_FOR in nominated then None else Some(vals[|vals| - 1])
  {
    if lines != [] {
      var n := |lines| - 1;
      HeadersClean(lines);
      ParseAllFront(lines, ParseHeader);
      ChainIs(lines[..n], nominated);
      ChainLineIs(lines[n], nominated);
      LastHeader(lines, n);
    }
  }

  lemma LastHeader(lines: seq<string>, n: nat)
    requires |lines| == n + 1 && ParseHeaders(lines).Some?
    ensures ParseHeaders(lines[..n]).Some? && ParseHeader(lines[n]).Some?
    ensures ParseHeaders(lines).value == ParseHeaders(lines[..n]).value + [ParseHeader(lines[n]).value]
    ensures forall name :: Values(ParseHeaders(lines).value, name)
              == Values(ParseHeaders(lines[..n]).value, name)
                 + (if Lower(ParseHeader(lines[n]).value.name) == name then [ParseHeader(lines[n]).value.value] else [])
  {
    HeadersClean(lines);
    ParseAllFront(lines, ParseHeader);
    var h := ParseHeader(lines[n]).value;
    SingleLine(lines[n], h, ParseHeader);
    ParseAllConcat(lines[..n], [lines[n]], ParseHeader);
    assert lines[..n] + [lines[n]] == lines;
    forall name ensures Values(ParseHeaders(lines).value, name)
        == Values(ParseHeaders(lines[..n]).value, name) + (if Lower(h.name) == name then [h.value] else [])
    {
      ValuesConcat(ParseHeaders(lines[..n]).value, [h], name);
      ValuesOne(h, name);
    }
  }

  // ----- what the proxy adds ----------------------------------------------------------------

  /** The proxy's own headers, as a client of the upstream would list them. */
  function OwnFields(upstreamHost: string, chain: Option<string>, peer: Option<string>): seq<Header> {
    [Header("Host", upstreamHost)]
    + (if peer.Some? then [Header("X-Forwarded-For", Extended(chain, peer.value))] else [])
    + [Header("X-Forwarded-Proto", "http")]
  }

  lemma OwnParse(upstreamHost: string, chain: Option<string>, peer: Option<string>)
    requires Addressable(upstreamHost, peer)
    requires chain.Some? ==> FieldText(chain.value) && (chain.value == "" || !IsOws(chain.value[0]))
    ensures ParseHeaders(OwnLines(upstreamHost, chain, peer)) == Some(OwnFields(upstreamHost, chain, peer))
  {
    OwnHeaders(upstreamHost);
    var hostLine, protoLine := HeaderLine("Host", upstreamHost), HeaderLine("X-Forwarded-Proto", "http");
    var host, proto := Header("Host", upstreamHost), Header("X-Forwarded-Proto", "http");
    if peer.Some? {
      ChainLineParses(chain, peer.value);
      var xff := Header("X-Forwarded-For", Extended(chain, peer.value));
      ThreeLines(hostLine, host, ChainLine(chain, peer.value), xff, protoLine, proto, ParseHeader);
      assert [host, xff, proto] == [host] + [xff] + [proto];
    } else {
      TwoLines(hostLine, host, protoLine, proto, ParseHeader);
      assert [host, proto] == [host] + [] + [proto];
    }
  }

  lemma LowerOwnNames()
    ensures Lower("Host") == "host" && Lower("X-Forwarded-For") == "x-forwarded-for"
    ensures Lower("X-Forwarded-Proto") == "x-forwarded-proto"
    ensures |"host"| == 4 && |"x-forwarded-for"| == 15 && |"x-forwarded-proto"| == 17
  {
  }

  lemma ListValues(a: Header, mid: seq<Header>, c: Header, n: string)
    ensures Values([a] + mid + [c], n)
         == (if Lower(a.name) == n then [a.value] else []) + Values(mid, n) + (if Lower(c.name) == n then [c.value] else [])
  {
    ValuesConcat([a] + mid, [c], n);
    ValuesConcat([a], mid, n);
    ValuesOne(a, n);
    ValuesOne(c, n);
  }

  lemma OwnFieldValues(upstreamHost: string, chain: Option<string>, peer: Option<string>, n: string)
    ensures Values(OwnFields(upstreamHost, chain, peer), n) ==
            if n == "host" then [upstreamHost]
            else if n == "x-forwarded-for" && peer.Some? then [Extended(chain, peer.value)]
            else if n == "x-forwarded-proto" then ["http"]
            else []
  {
    LowerOwnNames();
    var mid := if peer.Some? then [Header("X-Forwarded-For", Extended(chain, peer.value))] else [];
    ListValues(Header("Host", upstreamHost), mid, Header("X-Forwarded-Proto", "http"), n);
    if peer.Some? { ValuesOne(mid[0], n); }
  }

  // ----- a forwarded head, name by name ----------------------------------------------------------

  /** The values a forwarded request carries under a name, from those it arrived with. */
  ghost predicate ForwardedAs(hs: seq<Header>, upstreamHost: string, peer: Option<string>, n: string, vals: seq<string>) {
    var was, gone := Values(hs, n), EndsAtThisHop(Values(hs, "connection"), n);
    if n == "host" then vals == [upstreamHost]
    else if n == "x-forwarded-for" then
      if peer.None? then vals == []
      else if was == [] || gone then vals == [peer.value]
      else vals == [was[|was| - 1] + ", " + peer.value]
    else if n == "x-forwarded-proto" then vals == (if gone then [] else was) + ["http"]
    else vals == if gone then [] else was
  }

  lemma KeptValues(lines: seq<string>, dir: Direction, n: string)
    requires ParseHeaders(lines).Some?
    ensures ParseHeaders(Filter(lines, Keeper(Nominated(lines), dir))).Some?
    ensures var hs := ParseHeaders(lines).value;
            Values(ParseHeaders(Filter(lines, Keeper(Nominated(lines), dir))).value, n)
            == if EndsAtThisHop(Values(hs, "connection"), n) || (dir == Forward && (n == "host" || n == "x-forwarded-for"))
               then [] else Values(hs, n)
  {
    SurvivingName(lines, Nominated(lines), dir, n);
    HopIs(n);
    NominatedIs(lines, n);
  }

  /** Header by header: what a forwarded request's lines say. */
  lemma LinesForwardedAs(lines: seq<string>, upstreamHost: string, peer: Option<string>, n: string)
    requires ParseHeaders(lines).Some? && Addressable(upstreamHost, peer)
    ensures var out := ParseHeaders(ForwardLines(lines, Nominated(lines), upstreamHost, peer));
            out.Some? && ForwardedAs(ParseHeaders(lines).value, upstreamHost, peer, n, Values(out.value, n))
  {
    var nominated := Nominated(lines);
    var kept, chain := Filter(lines, Keeper(nominated, Forward)), Chain(lines, ChainTest(nominated));
    KeptValues(lines, Forward, n);
    ChainIsField(lines, ChainTest(nominated));
    OwnParse(upstreamHost, chain, peer);
    ParseAllConcat(kept, OwnLines(upstreamHost, chain, peer), ParseHeader);
    ValuesConcat(ParseHeaders(kept).value, OwnFields(upstreamHost, chain, peer), n);
    OwnFieldValues(upstreamHost, chain, peer, n);
    ChainFound(lines);
    KeptAndOwn(ParseHeaders(lines).value, upstreamHost, peer, n, chain, Values(ParseHeaders(kept).value, n),
               Values(OwnFields(upstreamHost, chain, peer), n));
  }

  lemma ChainFound(lines: seq<string>)
    requires ParseHeaders(lines).Some?
    ensures var hs := ParseHeaders(lines).value;
            Chain(lines, ChainTest(Nominated(lines))) == ChainOf(hs)
  {
    ChainIs(lines, Nominated(lines));
    NominatedIs(lines, FORWARDED_FOR);
    ForwardedForName();
  }

  ghost function ChainOf(hs: seq<Header>): Option<string> {
    var was := Values(hs, FORWARDED_FOR);
    if was == [] || EndsAtThisHop(Values(hs, "connection"), FORWARDED_FOR) then None else Some(was[|was| - 1])
  }

  /** The kept values and the proxy's own, together. */
  lemma KeptAndOwn(hs: seq<Header>, upstreamHost: string, peer: Option<string>, n: string, chain: Option<string>,
                   kept: seq<string>, own: seq<string>)
    requires kept == if EndsAtThisHop(Values(hs, "connection"), n) || n == "host" || n == "x-forwarded-for" then [] else Values(hs, n)
    requires chain == ChainOf(hs)
    requires own == if n == "host" then [upstreamHost]
                    else if n == "x-forwarded-for" && peer.Some? then [Extended(chain, peer.value)]
                    else if n == "x-forwarded-proto" then ["http"]
                    else []
    ensures ForwardedAs(hs, upstreamHost, peer, n, kept + own)
  {
    LowerOwnNames();
    if n == "x-forwarded-for" && peer.Some? { assert "" + peer.value == peer.value; }
    assert [] + own == own && kept + [] == kept;
  }

  lemma HeadLinesOf(start: string, lines: seq<string>)
    requires CleanLine(start) && ParseHeaders(lines).Some?
    ensures var out := Unlines([start] + lines) + CRLF; BlockLines(out, |out|) == lines
  {
    PrintedLines(start, lines);
    var out := Unlines([start] + lines) + CRLF;
    HeadersClean(lines);
    CleanCons(start, lines);
    BlockIsLines(out);
    assert ([start] + lines)[1..] == lines;
  }

  /**
   * A forwarded request, re-read, carries under every name exactly what it arrived
   * with, except: hop-by-hop and nominated names are gone, Host is the upstream, the
   * peer is appended to the last forwarded-for value, and the protocol is added.
   */
  lemma RequestForwardedAs(buf: string, target: string, upstreamHost: string, peer: Option<string>, n: string)
    requires RequestOf(buf).Complete? && RequestOf(buf).head.headLen <= |buf|
    requires target != "" && TargetText(target) && Addressable(upstreamHost, peer)
    ensures var head := RequestOf(buf).head;
            var out := ForwardHead(buf, head, target, upstreamHost, peer);
            var was, now := ParseHeaders(BlockLines(buf, head.headLen)), ParseHeaders(BlockLines(out, |out|));
            was.Some? && now.Some? && ForwardedAs(was.value, upstreamHost, peer, n, Values(now.value, n))
  {
    RequestFields(buf);
    MethodIsToken(buf);
    var head := RequestOf(buf).head;
    var lines := BlockLines(buf, head.headLen);
    LinesForwardedAs(lines, upstreamHost, peer, n);
    PrintedRequestLine(head.method_, target);
    RequestLineClean(head.method_ + " " + target + " HTTP/1.1");
    HeadLinesOf(head.method_ + " " + target + " HTTP/1.1", ForwardLines(lines, Nominated(lines), upstreamHost, peer));
  }

  // ----- a returned head, name by name -------------------------------------------------------------

  ghost predicate ReturnedAs(hs: seq<Header>, keepAlive: bool, n: string, vals: seq<string>) {
    if n == "connection" then vals == [if keepAlive then "keep-alive" else "close"]
    else vals == if EndsAtThisHop(Values(hs, "connection"), n) then [] else Values(hs, n)
  }

  lemma LinesReturnedAs(lines: seq<string>, keepAlive: bool, n: string)
    requires ParseHeaders(lines).Some?
    ensures var out := ParseHeaders(Filter(lines, Keeper(Nominated(lines), Return)) + [Disposition(keepAlive)]);
            out.Some? && ReturnedAs(ParseHeaders(lines).value, keepAlive, n, Values(out.value, n))
  {
    var kept, h := Filter(lines, Keeper(Nominated(lines), Return)), Header("Connection", DispositionToken(keepAlive));
    KeptValues(lines, Return, n);
    LiteralNames();
    DispositionParses(keepAlive);
    SingleLine(Disposition(keepAlive), h, ParseHeader);
    ParseAllConcat(kept, [Disposition(keepAlive)], ParseHeader);
    ValuesConcat(ParseHeaders(kept).value, [h], n);
    ValuesOne(h, n);
  }

  /**
   * A returned response, re-read, carries under every name exactly what it arrived
   * with, except that hop-by-hop and nominated names are gone and Connection is the
   * proxy's disposition.
   */
  lemma ResponseReturnedAs(buf: string, requestMethod: string, keepAlive: bool, n: string)
    requires ResponseOf(buf, requestMethod).Complete? && ResponseOf(buf, requestMethod).head.headLen <= |buf|
    ensures var head := ResponseOf(buf, requestMethod).head;
            var out := ReturnHead(buf, head, keepAlive);
            var was, now := ParseHeaders(BlockLines(buf, head.headLen)), ParseHeaders(BlockLines(out, |out|));
            was.Some? && now.Some? && ReturnedAs(was.value, keepAlive, n, Values(now.value, n))
  {
    CompleteResponseLines(buf, requestMethod);
    var lines, start := ReadLines(buf).lines[1..], ReadLines(buf).lines[0];
    LinesReturnedAs(lines, keepAlive, n);
    var printed := Filter(lines, Keeper(Nominated(lines), Return)) + [Disposition(keepAlive)];
    FieldCharsClean(start);
    StartThenLines(start, printed);
    HeadLinesOf(start, printed);
  }
}
