/** Rewriting heads for the next hop: forwarded requests, returned responses, proxy errors. */
module Http1Writer {
  import opened Text
  import opened Http1

  const HOP_BY_HOP: set<string> := {
    "connection", "keep-alive", "proxy-authenticate", "proxy-authorization",
    "proxy-connection", "te", "trailer", "upgrade"
  }

  function Chomp(line: string): string {
    if line != "" && line[|line| - 1] == '\r' then line[..|line| - 1] else line
  }

  /** Lines of a header block, split at LF; obs-fold lines are not joined. */
  function SplitHeaderLines(block: string): seq<string> {
    var i := IndexOf(block, '\n');
    var line := Chomp(block[..i]);
    (if line == "" then [] else [line]) + (if i < |block| then SplitHeaderLines(block[i + 1..]) else [])
  }

  predicate HasColon(line: string) {
    IndexOf(line, ':') < |line|
  }

  function LineName(line: string): string {
    Lower(Trim(line[..IndexOf(line, ':')], AsciiSpace))
  }

  /** What follows the colon, untrimmed. */
  function LineValue(line: string): string {
    if HasColon(line) then line[IndexOf(line, ':') + 1..] else ""
  }

  /** The header name one token of a Connection value nominates, in lower case. */
  function NominatedToken(token: string): seq<string> {
    var t := Lower(Trim(token, AsciiSpace));
    if t == "" || t == "close" || t == "keep-alive" then [] else [t]
  }

  function NominatedIn(value: string): seq<string> {
    FlatMap(Split(value, ','), NominatedToken)
  }

  function NominatedByLine(line: string): seq<string> {
    if HasColon(line) && LineName(line) == "connection" then NominatedIn(LineValue(line)) else []
  }

  function Nominated(lines: seq<string>): seq<string> {
    FlatMap(lines, NominatedByLine)
  }

  /** Hop-by-hop for this message: the fixed set and what Connection nominates. */
  predicate Dropped(line: string, nominated: seq<string>) {
    LineName(line) in HOP_BY_HOP || LineName(line) in nominated
  }

  /** Which way a head is being rewritten. */
  datatype Direction = Forward | Return

  predicate Kept(line: string, nominated: seq<string>, dir: Direction) {
    && HasColon(line) && !Dropped(line, nominated)
    && (dir == Forward ==> LineName(line) != "host" && LineName(line) != "x-forwarded-for")
  }

  predicate IsChain(line: string, nominated: seq<string>) {
    HasColon(line) && !Dropped(line, nominated) && LineName(line) == "x-forwarded-for"
  }

  function Keeper(nominated: seq<string>, dir: Direction): string -> bool {
    line => Kept(line, nominated, dir)
  }

  function ChainTest(nominated: seq<string>): string -> bool {
    line => IsChain(line, nominated)
  }

  function Filter(lines: seq<string>, keep: string -> bool): seq<string> {
    if lines == [] then []
    else (if keep(lines[0]) then [lines[0]] else []) + Filter(lines[1..], keep)
  }

  /** The last X-Forwarded-For value, which the peer is appended to. */
  function Chain(lines: seq<string>, isChain: string -> bool): Option<string> {
    if lines == [] then None
    else
      var n := |lines| - 1;
      if isChain(lines[n]) then Some(Trim(LineValue(lines[n]), AsciiSpace)) else Chain(lines[..n], isChain)
  }

  function HeadersStart(head: string): nat {
    if FindCrlf(head) < |head| then FindCrlf(head) + 2 else |head|
  }

  function BlockLines(original: string, headLen: nat): seq<string>
    requires headLen <= |original|
  {
    SplitHeaderLines(original[HeadersStart(original[..headLen])..headLen])
  }

  function HeaderLine(name: string, value: string): string {
    name + ": " + value
  }

  /** The peer appended to the chain received so far. */
  function Extended(prev: Option<string>, ip: string): string {
    (if prev.Some? then prev.value + ", " else "") + ip
  }

  function ChainLine(prev: Option<string>, ip: string): string {
    HeaderLine("X-Forwarded-For", Extended(prev, ip))
  }

  /** The headers a forwarded request always ends with. */
  function OwnLines(upstreamHost: string, chain: Option<string>, peer: Option<string>): seq<string> {
    [HeaderLine("Host", upstreamHost)]
    + (if peer.Some? then [ChainLine(chain, peer.value)] else [])
    + [HeaderLine("X-Forwarded-Proto", "http")]
  }

  function ForwardLines(lines: seq<string>, nominated: seq<string>, upstreamHost: string, peer: Option<string>): seq<string> {
    Filter(lines, Keeper(nominated, Forward)) + OwnLines(upstreamHost, Chain(lines, ChainTest(nominated)), peer)
  }

  function ForwardHead(original: string, head: RequestHead, target: string, upstreamHost: string, peer: Option<string>): string
    requires head.headLen <= |original|
  {
    var lines := BlockLines(original, head.headLen);
    Unlines([head.method_ + " " + target + " HTTP/1.1"] + ForwardLines(lines, Nominated(lines), upstreamHost, peer)) + CRLF
  }

  function Disposition(keepAlive: bool): string {
    HeaderLine("Connection", if keepAlive then "keep-alive" else "close")
  }

  function ReturnHead(original: string, head: ResponseHead, keepAlive: bool): string
    requires head.headLen <= |original|
  {
    var lines := BlockLines(original, head.headLen);
    var nominated := Nominated(lines);
    original[..HeadersStart(original[..head.headLen])]
    + Unlines(Filter(lines, Keeper(nominated, Return)) + [Disposition(keepAlive)]) + CRLF
  }

  function ErrorLines(): seq<string> {
    [HeaderLine("Content-Length", "0"), Disposition(false)]
  }

  /** A proxy-made error: `code` is the three-digit status and its reason. */
  function ErrorResponse(code: string): string {
    Unlines(["HTTP/1.1 " + code] + ErrorLines()) + CRLF
  }

  // ----- the writers, appending to a buffer ----------------------------------

  lemma {:induction false} UnlinesConcat(a: seq<string>, b: seq<string>)
    ensures Unlines(a + b) == Unlines(a) + Unlines(b)
  {
    if a == [] {
      assert a + b == b;
    } else {
      UnlinesConcat(a[1..], b);
      assert (a + b)[1..] == a[1..] + b;
    }
  }

  lemma UnlinesOne(l: string)
    ensures Unlines([l]) == l + CRLF
  {
    assert [l][1..] == [];
  }

  lemma {:induction false} FilterSnoc(lines: seq<string>, l: string, keep: string -> bool)
    ensures Filter(lines + [l], keep) == Filter(lines, keep) + (if keep(l) then [l] else [])
  {
    if lines == [] {
      assert lines + [l] == [l] && [l][1..] == [];
    } else {
      assert (lines + [l])[1..] == lines[1..] + [l];
      FilterSnoc(lines[1..], l, keep);
      FilterHead(lines, keep);
      FilterHead(lines + [l], keep);
    }
  }

  lemma FilterHead(lines: seq<string>, keep: string -> bool)
    requires lines != []
    ensures Filter(lines, keep) == (if keep(lines[0]) then [lines[0]] else []) + Filter(lines[1..], keep)
  {
  }

  lemma SurvivorsStep(lines: seq<string>, i: nat, keep: string -> bool)
    requires i < |lines|
    ensures Unlines(Filter(lines[..i + 1], keep))
         == Unlines(Filter(lines[..i], keep)) + (if keep(lines[i]) then lines[i] + CRLF else "")
  {
    assert lines[..i + 1] == lines[..i] + [lines[i]];
    FilterSnoc(lines[..i], lines[i], keep);
    if keep(lines[i]) {
      UnlinesConcat(Filter(lines[..i], keep), [lines[i]]);
      UnlinesOne(lines[i]);
    } else {
      assert Filter(lines[..i], keep) + [] == Filter(lines[..i], keep);
    }
  }

  lemma ChainStep(lines: seq<string>, i: nat, isChain: string -> bool)
    requires i < |lines|
    ensures Chain(lines[..i + 1], isChain)
         == if isChain(lines[i]) then Some(Trim(LineValue(lines[i]), AsciiSpace)) else Chain(lines[..i], isChain)
  {
    assert lines[..i + 1][..i] == lines[..i];
  }

  /** Copy the surviving lines, remembering the last forwarded-for chain. */
  method CopyLines(lines: seq<string>, keep: string -> bool, isChain: string -> bool)
    returns (out: string, existingXff: Option<string>)
    ensures out == Unlines(Filter(lines, keep))
    ensures existingXff == Chain(lines, isChain)
  {
    out, existingXff := "", None;
    for i := 0 to |lines|
      invariant out == Unlines(Filter(lines[..i], keep))
      invariant existingXff == Chain(lines[..i], isChain)
    {
      SurvivorsStep(lines, i, keep);
      ChainStep(lines, i, isChain);
      if isChain(lines[i]) {
        existingXff := Some(Trim(LineValue(lines[i]), AsciiSpace));
      }
      if keep(lines[i]) {
        out := out + (lines[i] + CRLF);
      }
    }
    assert lines[..|lines|] == lines;
  }

  method AppendOwnLines(out0: string, ghost lines: seq<string>, upstreamHost: string, chain: Option<string>, peer: Option<string>)
    returns (out: string)
    requires out0 == Unlines(lines)
    ensures out == Unlines(lines + OwnLines(upstreamHost, chain, peer))
  {
    out := AppendLine(out0, lines, HeaderLine("Host", upstreamHost));
    ghost var sofar := lines + [HeaderLine("Host", upstreamHost)];
    if peer.Some? {
      out := AppendLine(out, sofar, ChainLine(chain, peer.value));
      sofar := sofar + [ChainLine(chain, peer.value)];
    }
    out := AppendLine(out, sofar, HeaderLine("X-Forwarded-Proto", "http"));
    assert sofar + [HeaderLine("X-Forwarded-Proto", "http")] == lines + OwnLines(upstreamHost, chain, peer);
  }

  method WriteForwardHead(original: string, head: RequestHead, target: string, upstreamHost: string, peer: Option<string>)
    returns (out: string)
    requires head.headLen <= |original|
    ensures out == ForwardHead(original, head, target, upstreamHost, peer)
  {
    var lines := BlockLines(original, head.headLen);
    var nominated := Nominated(lines);
    var start := head.method_ + " " + target + " HTTP/1.1";
    out := start + CRLF;
    var copied, xff := CopyLines(lines, Keeper(nominated, Forward), ChainTest(nominated));
    out := out + copied;
    ghost var kept := Filter(lines, Keeper(nominated, Forward));
    UnlinesCons(start, kept);
    out := AppendOwnLines(out, [start] + kept, upstreamHost, xff, peer);
    RegroupLines(start, kept, OwnLines(upstreamHost, xff, peer));
    out := out + CRLF;
  }

  lemma RegroupLines(start: string, a: seq<string>, b: seq<string>)
    ensures [start] + a + b == [start] + (a + b)
  {
  }

  method AppendLine(out0: string, ghost lines: seq<string>, line: string) returns (out: string)
    requires out0 == Unlines(lines)
    ensures out == Unlines(lines + [line])
  {
    out := out0 + line + CRLF;
    UnlinesConcat(lines, [line]);
    UnlinesOne(line);
    assert out0 + line + CRLF == out0 + (line + CRLF);
  }

  method WriteReturnHead(original: string, head: ResponseHead, keepAlive: bool) returns (out: string)
    requires head.headLen <= |original|
    ensures out == ReturnHead(original, head, keepAlive)
  {
    var statusLineEnd := HeadersStart(original[..head.headLen]);
    var lines := BlockLines(original, head.headLen);
    var nominated := Nominated(lines);
    var copied, _ := CopyLines(lines, Keeper(nominated, Return), ChainTest(nominated));
    out := original[..statusLineEnd];
    var rest := AppendLine(copied, Filter(lines, Keeper(nominated, Return)), Disposition(keepAlive));
    out := out + rest;
    out := out + CRLF;
  }
}
