/**
 * Head rewriting preserves framing: what the writers print, the parsers read
 * back with the same method or status, the intended disposition and, unless the
 * message nominates its own framing header, the same body length.
 */
module Http1Framing {
  import opened Text
  import opened Http1
  import opened Http1Writer

  // ----- clean lines ---------------------------------------------------------

  lemma FieldCharsClean(l: string)
    requires l != "" && FieldText(l)
    ensures CleanLine(l)
  {
  }

  lemma HeaderLineClean(l: string)
    requires ParseHeader(l).Some?
    ensures CleanLine(l)
  {
    var c := IndexOf(l, ':');
    forall i | 0 <= i < |l| ensures l[i] != '\r' && l[i] != '\n' {
      if i < c {
        assert l[..c][i] == l[i] && IsToken(l[..c][i]);
        TokenNotControl(l[i]);
      } else if i > c {
        assert l[c + 1..][i - c - 1] == l[i] && IsFieldChar(l[c + 1..][i - c - 1]);
      }
    }
  }

  lemma TokenNotControl(c: char)
    requires IsToken(c)
    ensures c > ' ' && c != 127 as char && c != ':'
  {
  }

  lemma RequestLineClean(l: string)
    requires ParseRequestLine(l).Some?
    ensures CleanLine(l)
  {
    var a := IndexOf(l, ' ');
    var rest := l[a + 1..];
    var b := IndexOf(rest, ' ');
    forall i | 0 <= i < |l| ensures l[i] != '\r' && l[i] != '\n' {
      if i < a {
        assert l[..a][i] == l[i] && IsToken(l[..a][i]);
        TokenNotControl(l[i]);
      } else if i > a {
        var j := i - a - 1;
        assert rest[j] == l[i];
        if j < b {
          assert rest[..b][j] == l[i] && IsTargetChar(rest[..b][j]);
        } else if j > b {
          assert rest[b + 1..][j - b - 1] == l[i];
          VersionClean(rest[b + 1..], j - b - 1);
        }
      }
    }
  }

  lemma VersionClean(v: string, k: nat)
    requires (v == "HTTP/1.1" || v == "HTTP/1.0") && k < |v|
    ensures v[k] != '\r' && v[k] != '\n'
  {
  }

  lemma {:induction false} ParseAllEach(lines: seq<string>, parse: string -> Option<Header>)
    requires ParseAll(lines, parse).Some?
    ensures |ParseAll(lines, parse).value| == |lines|
    ensures forall i :: 0 <= i < |lines| ==> parse(lines[i]) == Some(ParseAll(lines, parse).value[i])
  {
    if lines != [] { ParseAllEach(lines[1..], parse); }
  }

  lemma HeadersClean(lines: seq<string>)
    requires ParseHeaders(lines).Some?
    ensures Clean(lines)
    ensures forall i :: 0 <= i < |lines| ==> ParseHeader(lines[i]).Some?
    ensures |ParseHeaders(lines).value| == |lines|
  {
    ParseAllEach(lines, ParseHeader);
    forall i | 0 <= i < |lines| ensures CleanLine(lines[i]) { HeaderLineClean(lines[i]); }
  }

  // ----- the header block of a complete head ---------------------------------

  lemma SplitBlank()
    ensures SplitHeaderLines(CRLF) == []
  {
    assert IndexOf(CRLF, '\n') == 1 by { NewlineAfter("", ""); assert "" + CRLF + "" == CRLF; }
    assert CRLF[..1] == "\r" && CRLF[2..] == "";
    assert SplitHeaderLines("") == [];
  }

  lemma SplitLine(l: string, tail: string)
    requires CleanLine(l)
    ensures SplitHeaderLines(l + CRLF + tail) == [l] + SplitHeaderLines(tail)
  {
    var block := l + CRLF + tail;
    NewlineAfter(l, tail);
    var first := block[..|l| + 1];
    assert first == l + "\r";
    assert Chomp(first) == l by { assert first[..|l|] == l; }
    assert block[|l| + 1 + 1..] == tail;
  }

  lemma {:induction false} SplitUnlines(ls: seq<string>)
    requires Clean(ls)
    ensures SplitHeaderLines(Unlines(ls) + CRLF) == ls
  {
    if ls == [] {
      SplitBlank();
      assert Unlines(ls) + CRLF == CRLF;
    } else {
      SplitUnlines(ls[1..]);
      SplitLine(ls[0], Unlines(ls[1..]) + CRLF);
      Regroup(ls[0], Unlines(ls[1..]), "");
      NothingBehind(ls[0] + CRLF + Unlines(ls[1..]), Unlines(ls[1..]));
      assert [ls[0]] + ls[1..] == ls;
    }
  }

  lemma NothingBehind(a: string, b: string)
    ensures a + CRLF + "" == a + CRLF && b + CRLF + "" == b + CRLF
  {
  }

  lemma {:induction false} NewlineAfter(l: string, rest: string)
    requires '\n' !in l
    ensures IndexOf(l + CRLF + rest, '\n') == |l| + 1
  {
    var s := l + CRLF + rest;
    if l == "" {
      assert s[0] == '\r' && s[1..][0] == '\n';
    } else {
      assert l[0] in l;
      assert s[1..] == l[1..] + CRLF + rest;
      NewlineAfter(l[1..], rest);
    }
  }

  lemma BlockOfHead(buf: string, n: nat, l: string, tail: string)
    requires n <= |buf| && buf[..n] == l + CRLF + tail && '\r' !in l
    ensures HeadersStart(buf[..n]) == |l| + 2 <= n
    ensures buf[..|l| + 2] == l + CRLF && buf[|l| + 2..n] == tail
  {
    FindCrlfLine(l, tail);
    assert buf[..n][..|l| + 2] == l + CRLF;
    assert buf[..n][|l| + 2..] == tail;
  }

  /** The writers see exactly the header lines the parser saw. */
  lemma BlockIsLines(buf: string)
    requires ReadLines(buf).Ready? && |ReadLines(buf).lines| > 0 && Clean(ReadLines(buf).lines)
    ensures ReadLines(buf).len <= |buf|
    ensures BlockLines(buf, ReadLines(buf).len) == ReadLines(buf).lines[1..]
    ensures buf[..HeadersStart(buf[..ReadLines(buf).len])] == ReadLines(buf).lines[0] + CRLF
  {
    ReadLinesShape(buf);
    var Ready(lines, n) := ReadLines(buf);
    var l, tail := lines[0], Unlines(lines[1..]) + CRLF;
    assert Unlines(lines) + CRLF == l + CRLF + tail;
    BlockOfHead(buf, n, l, tail);
    SplitUnlines(lines[1..]);
  }

  // ----- header values through concatenation and filtering -------------------

  lemma {:induction false} ValuesConcat(a: seq<Header>, b: seq<Header>, name: string)
    ensures Values(a + b, name) == Values(a, name) + Values(b, name)
  {
    if b == [] {
      assert a + b == a;
    } else {
      var n := |b| - 1;
      ValuesConcat(a, b[..n], name);
      assert (a + b)[..|a + b| - 1] == a + b[..n];
    }
  }

  lemma ValuesOne(h: Header, name: string)
    ensures Values([h], name) == if Lower(h.name) == name then [h.value] else []
  {
    assert [h][..0] == [];
  }

  lemma ValuesCons(h: Header, hs: seq<Header>, name: string)
    ensures Values([h] + hs, name) == (if Lower(h.name) == name then [h.value] else []) + Values(hs, name)
  {
    ValuesConcat([h], hs, name);
    ValuesOne(h, name);
  }

  lemma {:induction false} ParseAllConcat(a: seq<string>, b: seq<string>, parse: string -> Option<Header>)
    requires ParseAll(a, parse).Some? && ParseAll(b, parse).Some?
    ensures ParseAll(a + b, parse) == Some(ParseAll(a, parse).value + ParseAll(b, parse).value)
  {
    if a == [] {
      assert a + b == b;
      assert [] + ParseAll(b, parse).value == ParseAll(b, parse).value;
    } else {
      assert (a + b)[1..] == a[1..] + b;
      ParseAllConcat(a[1..], b, parse);
      var h, hs, ks := parse(a[0]).value, ParseAll(a[1..], parse).value, ParseAll(b, parse).value;
      assert [h] + (hs + ks) == [h] + hs + ks;
    }
  }

  lemma ParseAllCons(l: string, h: Header, ls: seq<string>, hs: seq<Header>, parse: string -> Option<Header>)
    requires parse(l) == Some(h) && ParseAll(ls, parse) == Some(hs)
    ensures ParseAll([l] + ls, parse) == Some([h] + hs)
  {
    assert ([l] + ls)[1..] == ls;
  }

  lemma HeaderParts(l: string)
    requires ParseHeader(l).Some?
    ensures HasColon(l) && IndexOf(l, ':') > 0
    ensures Tokens(l[..IndexOf(l, ':')]) && ParseHeader(l).value.name == l[..IndexOf(l, ':')]
    ensures FieldText(LineValue(l))
  {
  }

  lemma TokenLineName(l: string)
    requires Tokens(l[..IndexOf(l, ':')])
    ensures LineName(l) == Lower(l[..IndexOf(l, ':')])
  {
    TokensUntrimmed(l[..IndexOf(l, ':')]);
  }

  /** The name a line is filtered by is the name its header is scanned by. */
  lemma LineNameIsHeaderName(l: string)
    requires ParseHeader(l).Some?
    ensures HasColon(l) && LineName(l) == Lower(ParseHeader(l).value.name)
  {
    HeaderParts(l);
    TokenLineName(l);
  }

  lemma TokensUntrimmed(name: string)
    requires Tokens(name)
    ensures Trim(name, AsciiSpace) == name
  {
    if name != "" {
      TokenNotControl(name[0]);
      TokenNotControl(name[|name| - 1]);
    }
  }

  ghost predicate ReadsName(l: string, name: string, parse: string -> Option<Header>) {
    parse(l).Some? && Lower(parse(l).value.name) == name
  }

  lemma FilterCons(lines: seq<string>, keep: string -> bool, parse: string -> Option<Header>)
    requires lines != [] && parse(lines[0]).Some? && ParseAll(Filter(lines[1..], keep), parse).Some?
    ensures var fs := ParseAll(Filter(lines[1..], keep), parse).value;
            ParseAll(Filter(lines, keep), parse) == Some(if keep(lines[0]) then [parse(lines[0]).value] + fs else fs)
  {
    var rest := Filter(lines[1..], keep);
    if keep(lines[0]) {
      ParseAllCons(lines[0], parse(lines[0]).value, rest, ParseAll(rest, parse).value, parse);
    } else {
      assert Filter(lines, keep) == rest;
    }
  }

  /** Filtering keeps all values of a name that is kept, and none of one that is dropped. */
  lemma {:induction false} FilterValues(lines: seq<string>, keep: string -> bool, name: string, parse: string -> Option<Header>)
    requires ParseAll(lines, parse).Some?
    ensures ParseAll(Filter(lines, keep), parse).Some?
    ensures (forall l :: l in lines && ReadsName(l, name, parse) ==> keep(l)) ==>
              Values(ParseAll(Filter(lines, keep), parse).value, name) == Values(ParseAll(lines, parse).value, name)
    ensures (forall l :: l in lines && ReadsName(l, name, parse) ==> !keep(l)) ==>
              Values(ParseAll(Filter(lines, keep), parse).value, name) == []
  {
    if lines != [] {
      var l, rest := lines[0], lines[1..];
      FilterValues(rest, keep, name, parse);
      FilterCons(lines, keep, parse);
      assert forall x :: x in rest ==> x in lines;
      assert l in lines;
      var h := parse(l).value;
      ValuesCons(h, ParseAll(rest, parse).value, name);
      ValuesCons(h, ParseAll(Filter(rest, keep), parse).value, name);
    }
  }

  // ----- the lines the proxy adds --------------------------------------------

  ghost predicate Trimmed(v: string) {
    v == "" || (!IsOws(v[0]) && !IsOws(v[|v| - 1]))
  }

  lemma TrimSpaced(v: string)
    requires Trimmed(v)
    ensures Trim(" " + v, Ows) == v
  {
    assert (" " + v)[1..] == v;
    assert DropLeading(" " + v, Ows) == DropLeading(v, Ows);
  }

  lemma ColonAfterName(name: string, rest: string)
    requires Tokens(name)
    ensures IndexOf(name + ":" + rest, ':') == |name|
    ensures (name + ":" + rest)[..|name|] == name && (name + ":" + rest)[|name| + 1..] == rest
  {
    var l := name + ":" + rest;
    forall i | 0 <= i < |name| ensures l[i] != ':' { TokenNotControl(name[i]); }
    assert l[|name|] == ':';
  }

  lemma SpacedField(v: string)
    requires FieldText(v)
    ensures FieldText(" " + v)
  {
  }

  lemma HeaderFrom(l: string, c: nat)
    requires IndexOf(l, ':') == c && 0 < c < |l|
    requires Tokens(l[..c]) && FieldText(l[c + 1..])
    ensures ParseHeader(l) == Some(Header(l[..c], Trim(l[c + 1..], Ows)))
  {
  }

  /** A header printed as `name: value` parses back, for token names and trimmed field values. */
  lemma PrintedHeader(name: string, v: string)
    requires name != "" && Tokens(name) && FieldText(v) && Trimmed(v)
    ensures ParseHeader(HeaderLine(name, v)) == Some(Header(name, v))
  {
    var l := name + ":" + (" " + v);
    assert HeaderLine(name, v) == l;
    ColonAfterName(name, " " + v);
    SpacedField(v);
    HeaderFrom(l, |name|);
    TrimSpaced(v);
  }

  ghost predicate FieldValue(v: string) {
    FieldText(v) && Trimmed(v)
  }

  lemma {:induction false} ChainIsField(lines: seq<string>, isChain: string -> bool)
    requires ParseHeaders(lines).Some?
    ensures Chain(lines, isChain).Some? ==> FieldText(Chain(lines, isChain).value)
    ensures Chain(lines, isChain).Some? ==> Chain(lines, isChain).value == "" || !IsOws(Chain(lines, isChain).value[0])
  {
    if lines != [] {
      var n := |lines| - 1;
      HeadersClean(lines);
      if isChain(lines[n]) {
        TrimmedLineValue(lines[n]);
      } else {
        ParseAllFront(lines, ParseHeader);
        ChainIsField(lines[..n], isChain);
      }
    }
  }

  lemma {:induction false} ParseAllFront(lines: seq<string>, parse: string -> Option<Header>)
    requires lines != [] && ParseAll(lines, parse).Some?
    ensures ParseAll(lines[..|lines| - 1], parse).Some?
  {
    if |lines| > 1 {
      ParseAllFront(lines[1..], parse);
      assert lines[..|lines| - 1][1..] == lines[1..][..|lines| - 2];
    }
  }

  lemma TrimmedLineValue(l: string)
    requires ParseHeader(l).Some?
    ensures var v := Trim(LineValue(l), AsciiSpace); FieldText(v) && (v == "" || !IsOws(v[0]))
  {
    HeaderParts(l);
    TrimmedField(LineValue(l));
  }

  lemma TrimmedField(raw: string)
    requires FieldText(raw)
    ensures var v := Trim(raw, AsciiSpace); FieldText(v) && (v == "" || !IsOws(v[0]))
  {
    var d := DropLeading(raw, AsciiSpace);
    var v := DropTrailing(d, AsciiSpace);
    DropLeadingShape(raw, AsciiSpace);
    DropTrailingShape(d, AsciiSpace);
    FieldSlice(raw, |raw| - |d|, |raw|);
    assert raw[|raw| - |d|..|raw|] == d;
    FieldSlice(d, 0, |v|);
    assert d[0..|v|] == v;
  }

  lemma FieldSlice(s: string, a: nat, b: nat)
    requires FieldText(s) && a <= b <= |s|
    ensures FieldText(s[a..b])
  {
  }

  lemma ExtendedIsField(prev: Option<string>, ip: string)
    requires FieldValue(ip) && ip != ""
    requires prev.Some? ==> FieldText(prev.value) && (prev.value == "" || !IsOws(prev.value[0]))
    ensures FieldValue(Extended(prev, ip))
  {
    var v := Extended(prev, ip);
    assert v[|v| - 1] == ip[|ip| - 1];
    if prev.Some? {
      var sep := ", ";
      assert v == prev.value + sep + ip;
    }
  }

  lemma ChainLineParses(prev: Option<string>, ip: string)
    requires FieldValue(ip) && ip != ""
    requires prev.Some? ==> FieldText(prev.value) && (prev.value == "" || !IsOws(prev.value[0]))
    ensures ParseHeader(ChainLine(prev, ip)) == Some(Header("X-Forwarded-For", Extended(prev, ip)))
  {
    ExtendedIsField(prev, ip);
    assert Tokens("X-Forwarded-For");
    PrintedHeader("X-Forwarded-For", Extended(prev, ip));
  }

  ghost predicate Addressable(upstreamHost: string, peer: Option<string>) {
    && FieldValue(upstreamHost) && ValidUtf8(upstreamHost)
    && (peer.Some? ==> FieldValue(peer.value) && peer.value != "")
  }

  lemma LiteralNames()
    ensures Tokens("Host") && Tokens("X-Forwarded-Proto") && Tokens("Connection")
    ensures Lower("Host") == "host"
    ensures Lower("Connection") == "connection"
    ensures Lower("X-Forwarded-Proto")[0] == 'x' && |Lower("X-Forwarded-Proto")| == 17
    ensures Lower("X-Forwarded-For")[0] == 'x' && |Lower("X-Forwarded-For")| == 15
  {
  }

  ghost predicate OwnOutcome(own: Option<seq<Header>>, upstreamHost: string) {
    && own.Some?
    && Values(own.value, "host") == [upstreamHost]
    && Values(own.value, "content-length") == []
    && Values(own.value, "transfer-encoding") == []
    && Values(own.value, "connection") == []
  }

  /** The proxy's own lines parse, set Host, and add no framing or connection header. */
  lemma OwnLinesParse(upstreamHost: string, chain: Option<string>, peer: Option<string>)
    requires Addressable(upstreamHost, peer)
    requires chain.Some? ==> FieldText(chain.value) && (chain.value == "" || !IsOws(chain.value[0]))
    ensures OwnOutcome(ParseHeaders(OwnLines(upstreamHost, chain, peer)), upstreamHost)
  {
    OwnHeaders(upstreamHost);
    var hostLine, protoLine := HeaderLine("Host", upstreamHost), HeaderLine("X-Forwarded-Proto", "http");
    if peer.Some? {
      ChainLineParses(chain, peer.value);
      WithPeer(hostLine, upstreamHost, ChainLine(chain, peer.value), Extended(chain, peer.value), protoLine, ParseHeader);
    } else {
      WithoutPeer(hostLine, upstreamHost, protoLine, ParseHeader);
    }
  }

  lemma WithPeer(hostLine: string, upstreamHost: string, chainLine: string, v: string, protoLine: string, parse: string -> Option<Header>)
    requires parse(hostLine) == Some(Header("Host", upstreamHost))
    requires parse(chainLine) == Some(Header("X-Forwarded-For", v))
    requires parse(protoLine) == Some(Header("X-Forwarded-Proto", "http"))
    ensures OwnOutcome(ParseAll([hostLine] + [chainLine] + [protoLine], parse), upstreamHost)
  {
    var host, xff, proto := Header("Host", upstreamHost), Header("X-Forwarded-For", v), Header("X-Forwarded-Proto", "http");
    ThreeLines(hostLine, host, chainLine, xff, protoLine, proto, parse);
    OwnValues(upstreamHost, [xff, proto]);
    assert [host] + [xff, proto] == [host, xff, proto];
  }

  lemma WithoutPeer(hostLine: string, upstreamHost: string, protoLine: string, parse: string -> Option<Header>)
    requires parse(hostLine) == Some(Header("Host", upstreamHost))
    requires parse(protoLine) == Some(Header("X-Forwarded-Proto", "http"))
    ensures OwnOutcome(ParseAll([hostLine] + [] + [protoLine], parse), upstreamHost)
  {
    var host, proto := Header("Host", upstreamHost), Header("X-Forwarded-Proto", "http");
    TwoLines(hostLine, host, protoLine, proto, parse);
    OwnValues(upstreamHost, [proto]);
    assert [host] + [proto] == [host, proto];
  }

  lemma TwoLines(a: string, ha: Header, b: string, hb: Header, parse: string -> Option<Header>)
    requires parse(a) == Some(ha) && parse(b) == Some(hb)
    ensures ParseAll([a] + [] + [b], parse) == Some([ha, hb])
  {
    SingleLine(b, hb, parse);
    ParseAllCons(a, ha, [b], [hb], parse);
    assert [a] + [] + [b] == [a] + [b] && [ha] + [hb] == [ha, hb];
  }

  lemma ThreeLines(a: string, ha: Header, b: string, hb: Header, c: string, hc: Header, parse: string -> Option<Header>)
    requires parse(a) == Some(ha) && parse(b) == Some(hb) && parse(c) == Some(hc)
    ensures ParseAll([a] + [b] + [c], parse) == Some([ha, hb, hc])
  {
    TwoLines(b, hb, c, hc, parse);
    assert [b] + [] + [c] == [b, c];
    ParseAllCons(a, ha, [b, c], [hb, hc], parse);
    assert [a] + [b] + [c] == [a] + [b, c] && [ha] + [hb, hc] == [ha, hb, hc];
  }

  lemma OwnHeaders(upstreamHost: string)
    requires FieldValue(upstreamHost)
    ensures ParseHeader(HeaderLine("Host", upstreamHost)) == Some(Header("Host", upstreamHost))
    ensures ParseHeader(HeaderLine("X-Forwarded-Proto", "http")) == Some(Header("X-Forwarded-Proto", "http"))
  {
    assert Tokens("Host");
    PrintedHeader("Host", upstreamHost);
    ProtoHeader();
  }

  lemma ProtoHeader()
    ensures ParseHeader(HeaderLine("X-Forwarded-Proto", "http")) == Some(Header("X-Forwarded-Proto", "http"))
  {
    assert Tokens("X-Forwarded-Proto");
    PrintedHeader("X-Forwarded-Proto", "http");
  }

  ghost predicate ForwardingHeader(h: Header) {
    h.name == "X-Forwarded-For" || h.name == "X-Forwarded-Proto"
  }

  lemma {:induction false} ForwardingValues(hs: seq<Header>, name: string)
    requires forall i :: 0 <= i < |hs| ==> ForwardingHeader(hs[i])
    requires name == "host" || name == "content-length" || name == "transfer-encoding" || name == "connection"
    ensures Values(hs, name) == []
  {
    if hs != [] {
      ForwardingValues(hs[..|hs| - 1], name);
      ForwardingName(hs[|hs| - 1], name);
    }
  }

  lemma ForwardingName(h: Header, name: string)
    requires ForwardingHeader(h)
    requires name == "host" || name == "content-length" || name == "transfer-encoding" || name == "connection"
    ensures Lower(h.name) != name
  {
    LiteralNames();
    assert "transfer-encoding"[0] == 't';
  }

  lemma OwnValues(upstreamHost: string, hs: seq<Header>)
    requires forall i :: 0 <= i < |hs| ==> ForwardingHeader(hs[i])
    ensures var own := [Header("Host", upstreamHost)] + hs;
            && Values(own, "host") == [upstreamHost]
            && Values(own, "content-length") == []
            && Values(own, "transfer-encoding") == []
            && Values(own, "connection") == []
  {
    var host := Header("Host", upstreamHost);
    LiteralNames();
    OtherValue(host, hs, "content-length");
    OtherValue(host, hs, "transfer-encoding");
    OtherValue(host, hs, "connection");
    ValuesCons(host, hs, "host");
    ForwardingValues(hs, "host");
  }

  lemma OtherValue(host: Header, hs: seq<Header>, name: string)
    requires host.name == "Host" && forall i :: 0 <= i < |hs| ==> ForwardingHeader(hs[i])
    requires name == "content-length" || name == "transfer-encoding" || name == "connection"
    ensures Values([host] + hs, name) == []
  {
    ValuesCons(host, hs, name);
    ForwardingValues(hs, name);
    assert |Lower(host.name)| == 4;
  }

  lemma SingleLine(l: string, h: Header, parse: string -> Option<Header>)
    requires parse(l) == Some(h)
    ensures ParseAll([l], parse) == Some([h])
  {
    ParseAllCons(l, h, [], [], parse);
    assert [l] + [] == [l] && [h] + [] == [h];
  }

  // ----- which headers survive ------------------------------------------------

  lemma NotHopByHop()
    ensures "content-length" !in HOP_BY_HOP && "transfer-encoding" !in HOP_BY_HOP && "connection" in HOP_BY_HOP
  {
    assert |"content-length"| == 14 && |"transfer-encoding"| == 17;
  }

  /** Whether a header line survives, read off its parsed name. */
  lemma KeptByName(l: string, nominated: seq<string>, dir: Direction)
    requires ParseHeader(l).Some?
    ensures var name := Lower(ParseHeader(l).value.name);
            Keeper(nominated, dir)(l) <==>
            name !in HOP_BY_HOP && name !in nominated && (dir == Forward ==> name != "host" && name != "x-forwarded-for")
  {
    LineNameIsHeaderName(l);
  }

  /** All values of a name survive when it is neither hop-by-hop, nominated nor replaced; otherwise none does. */
  lemma SurvivingName(lines: seq<string>, nominated: seq<string>, dir: Direction, name: string)
    requires ParseHeaders(lines).Some?
    ensures ParseHeaders(Filter(lines, Keeper(nominated, dir))).Some?
    ensures var survives := name !in HOP_BY_HOP && name !in nominated && (dir == Forward ==> name != "host" && name != "x-forwarded-for");
            Values(ParseHeaders(Filter(lines, Keeper(nominated, dir))).value, name)
            == if survives then Values(ParseHeaders(lines).value, name) else []
  {
    HeadersClean(lines);
    forall l | l in lines && ReadsName(l, name, ParseHeader)
      ensures Keeper(nominated, dir)(l) <==>
              name !in HOP_BY_HOP && name !in nominated && (dir == Forward ==> name != "host" && name != "x-forwarded-for")
    {
      KeptByName(l, nominated, dir);
    }
    FilterValues(lines, Keeper(nominated, dir), name, ParseHeader);
  }

  /** The survivors' values: framing headers unless nominated, never Connection, no Host when forwarding. */
  lemma SurvivingValues(lines: seq<string>, nominated: seq<string>, dir: Direction)
    requires ParseHeaders(lines).Some?
    ensures ParseHeaders(Filter(lines, Keeper(nominated, dir))).Some?
    ensures var hs, kept := ParseHeaders(lines).value, ParseHeaders(Filter(lines, Keeper(nominated, dir))).value;
            && Values(kept, "connection") == []
            && (dir == Forward ==> Values(kept, "host") == [])
            && Values(kept, "content-length") == (if "content-length" in nominated then [] else Values(hs, "content-length"))
            && Values(kept, "transfer-encoding") == (if "transfer-encoding" in nominated then [] else Values(hs, "transfer-encoding"))
  {
    NotHopByHop();
    SurvivingName(lines, nominated, dir, "connection");
    SurvivingName(lines, nominated, dir, "host");
    SurvivingName(lines, nominated, dir, "content-length");
    SurvivingName(lines, nominated, dir, "transfer-encoding");
  }

  // ----- forwarding -----------------------------------------------------------

  ghost predicate FitsForward(lines: seq<string>, nominated: seq<string>, peer: Option<string>) {
    |Filter(lines, Keeper(nominated, Forward))| + (if peer.Some? then 3 else 2) <= MAX_HEADERS
  }

  lemma ForwardLinesParse(lines: seq<string>, nominated: seq<string>, upstreamHost: string, peer: Option<string>)
    requires ParseHeaders(lines).Some? && Addressable(upstreamHost, peer)
    ensures var hs := ParseHeaders(lines).value;
            var out := ParseHeaders(ForwardLines(lines, nominated, upstreamHost, peer));
            && out.Some?
            && Values(out.value, "host") == [upstreamHost]
            && Values(out.value, "connection") == []
            && Values(out.value, "content-length") == (if "content-length" in nominated then [] else Values(hs, "content-length"))
            && Values(out.value, "transfer-encoding") == (if "transfer-encoding" in nominated then [] else Values(hs, "transfer-encoding"))
  {
    var kept := Filter(lines, Keeper(nominated, Forward));
    var chain := Chain(lines, ChainTest(nominated));
    ChainIsField(lines, ChainTest(nominated));
    OwnLinesParse(upstreamHost, chain, peer);
    SurvivingValues(lines, nominated, Forward);
    ParseAllConcat(kept, OwnLines(upstreamHost, chain, peer), ParseHeader);
    var a, b := ParseHeaders(kept).value, ParseHeaders(OwnLines(upstreamHost, chain, peer)).value;
    ValuesConcat(a, b, "host");
    ValuesConcat(a, b, "connection");
    ValuesConcat(a, b, "content-length");
    ValuesConcat(a, b, "transfer-encoding");
  }

  /** The first space of two words is the one between them. */
  lemma SpaceBetween(a: string, b: string)
    requires forall i :: 0 <= i < |a| ==> a[i] != ' '
    ensures IndexOf(a + " " + b, ' ') == |a|
    ensures (a + " " + b)[..|a|] == a && (a + " " + b)[|a| + 1..] == b
  {
    var l := a + " " + b;
    assert l[|a|] == ' ';
    assert forall i :: 0 <= i < |a| ==> l[i] == a[i];
  }

  /** Three words without spaces parse as method, target and version. */
  lemma ThreeWords(m: string, target: string, version: string)
    requires m != "" && Tokens(m) && target != "" && TargetText(target)
    requires forall i :: 0 <= i < |m| ==> m[i] != ' '
    requires forall i :: 0 <= i < |target| ==> target[i] != ' '
    requires version == "HTTP/1.1"
    ensures ParseRequestLine(m + " " + (target + " " + version)) == Some(RequestLine(m, target, true))
  {
    SpaceBetween(m, target + " " + version);
    SpaceBetween(target, version);
  }

  lemma PrintedRequestLine(m: string, target: string)
    requires m != "" && Tokens(m) && target != "" && TargetText(target)
    ensures ParseRequestLine(m + " " + target + " HTTP/1.1") == Some(RequestLine(m, target, true))
  {
    forall i | 0 <= i < |m| ensures m[i] != ' ' { TokenNotControl(m[i]); }
    ThreeWords(m, target, "HTTP/1.1");
    LineText(m, target);
  }

  lemma LineText(m: string, target: string)
    ensures m + " " + target + " HTTP/1.1" == m + " " + (target + " " + "HTTP/1.1")
  {
  }

  lemma MethodIsToken(buf: string)
    requires RequestOf(buf).Complete?
    ensures var m := RequestOf(buf).head.method_; m != "" && Tokens(m)
  {
  }

  lemma CleanCons(start: string, lines: seq<string>)
    requires CleanLine(start) && Clean(lines)
    ensures Clean([start] + lines)
  {
  }

  lemma PrintedLines(start: string, lines: seq<string>)
    requires CleanLine(start) && ParseHeaders(lines).Some?
    ensures var out := Unlines([start] + lines) + CRLF; ReadLines(out) == Ready([start] + lines, |out|)
  {
    var all := [start] + lines;
    HeadersClean(lines);
    CleanCons(start, lines);
    ReadUnlines(all, "");
    assert Unlines(all) + CRLF + "" == Unlines(all) + CRLF;
  }

  lemma HeadersOfCons(start: string, lines: seq<string>)
    requires ParseHeaders(lines).Some? && |lines| <= MAX_HEADERS
    ensures HeadersOf([start] + lines) == ParseHeaders(lines)
  {
    assert ([start] + lines)[1..] == lines;
  }

  /** A head printed from well-formed lines is read back from exactly those lines. */
  lemma PrintedRequest(start: string, lines: seq<string>)
    requires ParseRequestLine(start).Some? && ParseHeaders(lines).Some? && |lines| <= MAX_HEADERS
    ensures var out := Unlines([start] + lines) + CRLF;
            RequestOf(out) == RequestFrom(ParseRequestLine(start).value, ParseHeaders(lines).value, |out|)
  {
    RequestLineClean(start);
    PrintedLines(start, lines);
    HeadersOfCons(start, lines);
  }

  /** A complete request head consists of clean lines, and the writers see its header lines. */
  lemma CompleteRequestLines(buf: string)
    requires RequestOf(buf).Complete?
    ensures ReadLines(buf).Ready? && |ReadLines(buf).lines| > 0
    ensures RequestOf(buf).head.headLen == ReadLines(buf).len <= |buf|
    ensures ParseHeaders(ReadLines(buf).lines[1..]).Some?
    ensures BlockLines(buf, ReadLines(buf).len) == ReadLines(buf).lines[1..]
  {
    var all := ReadLines(buf).lines;
    RequestLineClean(all[0]);
    HeadersClean(all[1..]);
    CleanCons(all[0], all[1..]);
    assert [all[0]] + all[1..] == all;
    BlockIsLines(buf);
  }

  /** The headers that carry this body length are nominated as hop-by-hop by the message itself. */
  ghost predicate NominatesFraming(nominated: seq<string>, body: BodyLength) {
    || ("transfer-encoding" in nominated && body.Chunked?)
    || ("content-length" in nominated && body.Fixed?)
  }

  /**
   * Forwarding: re-parsing the rewritten head gives the same method, the new
   * target, the upstream as host and no close; it gives the same body length
   * exactly when the request does not nominate its own framing header.
   */
  lemma ForwardPreservesFraming(buf: string, target: string, upstreamHost: string, peer: Option<string>)
    requires RequestOf(buf).Complete?
    requires target != "" && TargetText(target) && Addressable(upstreamHost, peer)
    requires RequestOf(buf).head.headLen <= |buf|
    requires var lines := BlockLines(buf, RequestOf(buf).head.headLen); FitsForward(lines, Nominated(lines), peer)
    ensures var head := RequestOf(buf).head;
            var nominated := Nominated(BlockLines(buf, head.headLen));
            var out := ForwardHead(buf, head, target, upstreamHost, peer);
            && RequestOf(out).Complete?
            && var again := RequestOf(out).head;
               && again.headLen == |out|
               && again.method_ == head.method_
               && again.target == target
               && again.host == Some(upstreamHost)
               && !again.closeRequested
               && (again.body == head.body <==> !NominatesFraming(nominated, head.body))
  {
    RequestFields(buf);
    MethodIsToken(buf);
    ForwardedHead(RequestOf(buf).head.method_, BlockLines(buf, RequestOf(buf).head.headLen), target, upstreamHost, peer);
  }

  /** What a complete request head says, read off its header lines. */
  lemma RequestFields(buf: string)
    requires RequestOf(buf).Complete? && RequestOf(buf).head.headLen <= |buf|
    ensures var lines := BlockLines(buf, RequestOf(buf).head.headLen);
            && ParseHeaders(lines).Some?
            && var hs := ParseHeaders(lines).value;
               && RequestLength(Values(hs, "content-length")).Some?
               && RequestOf(buf).head.body
                  == RequestBody(ChunkedBy(Values(hs, "transfer-encoding")), RequestLength(Values(hs, "content-length")).value)
  {
    CompleteRequestLines(buf);
  }

  /** The same, from the header lines alone. */
  lemma ForwardedHead(m: string, lines: seq<string>, target: string, upstreamHost: string, peer: Option<string>)
    requires m != "" && Tokens(m) && target != "" && TargetText(target) && Addressable(upstreamHost, peer)
    requires ParseHeaders(lines).Some? && FitsForward(lines, Nominated(lines), peer)
    requires RequestLength(Values(ParseHeaders(lines).value, "content-length")).Some?
    ensures var hs, nominated := ParseHeaders(lines).value, Nominated(lines);
            var body := RequestBody(ChunkedBy(Values(hs, "transfer-encoding")), RequestLength(Values(hs, "content-length")).value);
            var out := Unlines([m + " " + target + " HTTP/1.1"] + ForwardLines(lines, nominated, upstreamHost, peer)) + CRLF;
            && RequestOf(out).Complete?
            && var again := RequestOf(out).head;
               && again.headLen == |out| && again.method_ == m && again.target == target
               && again.host == Some(upstreamHost) && !again.closeRequested
               && (again.body == body <==> !NominatesFraming(nominated, body))
  {
    var nominated := Nominated(lines);
    var start, printed := m + " " + target + " HTTP/1.1", ForwardLines(lines, nominated, upstreamHost, peer);
    PrintedRequestLine(m, target);
    ForwardLinesParse(lines, nominated, upstreamHost, peer);
    PrintedRequest(start, printed);
    FramingOutcome(ParseHeaders(lines).value, ParseHeaders(printed).value, nominated);
    FromValues(RequestLine(m, target, true), ParseHeaders(printed).value, |Unlines([start] + printed) + CRLF|, upstreamHost);
  }

  lemma FromValues(line: RequestLine, hs: seq<Header>, len: nat, host: string)
    requires line.http11 && Values(hs, "host") == [host] && ValidUtf8(host) && Values(hs, "connection") == []
    requires RequestLength(Values(hs, "content-length")).Some?
    ensures RequestFrom(line, hs, len)
         == Complete(RequestHead(len, line.method_, line.target, Some(host),
                                 RequestBody(ChunkedBy(Values(hs, "transfer-encoding")), RequestLength(Values(hs, "content-length")).value),
                                 false))
  {
  }

  /** What losing the nominated framing headers does to a request's length and body. */
  lemma FramingOutcome(hs: seq<Header>, out: seq<Header>, nominated: seq<string>)
    requires RequestLength(Values(hs, "content-length")).Some?
    requires Values(out, "content-length") == if "content-length" in nominated then [] else Values(hs, "content-length")
    requires Values(out, "transfer-encoding") == if "transfer-encoding" in nominated then [] else Values(hs, "transfer-encoding")
    ensures RequestLength(Values(out, "content-length")).Some?
    ensures var body := RequestBody(ChunkedBy(Values(hs, "transfer-encoding")), RequestLength(Values(hs, "content-length")).value);
            var again := RequestBody(ChunkedBy(Values(out, "transfer-encoding")), RequestLength(Values(out, "content-length")).value);
            again == body <==> !NominatesFraming(nominated, body)
  {
  }

  // ----- returning ------------------------------------------------------------

  ghost predicate FitsReturn(lines: seq<string>, nominated: seq<string>) {
    |Filter(lines, Keeper(nominated, Return))| + 1 <= MAX_HEADERS
  }

  lemma {:induction false} AsciiIsUtf8(s: string)
    requires forall i :: 0 <= i < |s| ==> s[i] < 0x80 as char
    ensures ValidUtf8(s)
  {
    if s != "" { AsciiIsUtf8(s[1..]); }
  }

  function DispositionToken(keepAlive: bool): string {
    if keepAlive then "keep-alive" else "close"
  }

  lemma DispositionText(keepAlive: bool)
    ensures var v := DispositionToken(keepAlive);
            && FieldText(v) && Trimmed(v) && ValidUtf8(v) && Lower(TrimText(v)) == v && IndexOf(v, ',') == |v|
  {
    var v := DispositionToken(keepAlive);
    AsciiIsUtf8(v);
    assert Lower(v) == v;
    assert LeadingSpace(v) == 0 && TrailingSpace(v) == 0;
    forall i | 0 <= i < |v| ensures v[i] != ',' {}
  }

  lemma DispositionDecides(keepAlive: bool, start: bool)
    ensures CloseBy([DispositionToken(keepAlive)], start) == !keepAlive
  {
    var v := DispositionToken(keepAlive);
    DispositionText(keepAlive);
    assert Split(v, ',') == [v];
    OneToken(v, start);
    var vals: seq<string> := [v];
    assert vals[..0] == [];
    assert CloseBy(vals[..0], start) == start;
  }

  lemma OneToken(v: string, close: bool)
    ensures ApplyTokens([v], close)
         == var t := Lower(TrimText(v)); if t == "close" then true else if t == "keep-alive" then false else close
  {
    var vals: seq<string> := [v];
    assert vals[1..] == [];
  }

  lemma DispositionParses(keepAlive: bool)
    ensures ParseHeader(Disposition(keepAlive)) == Some(Header("Connection", DispositionToken(keepAlive)))
  {
    LiteralNames();
    DispositionText(keepAlive);
    PrintedHeader("Connection", DispositionToken(keepAlive));
  }

  lemma ReturnLinesParse(lines: seq<string>, nominated: seq<string>, keepAlive: bool)
    requires ParseHeaders(lines).Some?
    ensures var hs := ParseHeaders(lines).value;
            var out := ParseHeaders(Filter(lines, Keeper(nominated, Return)) + [Disposition(keepAlive)]);
            && out.Some?
            && Values(out.value, "connection") == [DispositionToken(keepAlive)]
            && Values(out.value, "content-length") == (if "content-length" in nominated then [] else Values(hs, "content-length"))
            && Values(out.value, "transfer-encoding") == (if "transfer-encoding" in nominated then [] else Values(hs, "transfer-encoding"))
  {
    var kept := Filter(lines, Keeper(nominated, Return));
    LiteralNames();
    DispositionParses(keepAlive);
    SurvivingValues(lines, nominated, Return);
    var h := Header("Connection", DispositionToken(keepAlive));
    SingleLine(Disposition(keepAlive), h, ParseHeader);
    ValuesOne(h, "connection");
    ValuesOne(h, "content-length");
    ValuesOne(h, "transfer-encoding");
    ParseAllConcat(kept, [Disposition(keepAlive)], ParseHeader);
    var a := ParseHeaders(kept).value;
    ValuesConcat(a, [h], "connection");
    ValuesConcat(a, [h], "content-length");
    ValuesConcat(a, [h], "transfer-encoding");
  }

  lemma PrintedResponse(start: string, lines: seq<string>, requestMethod: string)
    requires ParseStatusLine(start).Some? && ParseHeaders(lines).Some? && |lines| <= MAX_HEADERS
    ensures var out := Unlines([start] + lines) + CRLF;
            ResponseOf(out, requestMethod)
            == Complete(ResponseFrom(ParseStatusLine(start).value, ParseHeaders(lines).value, |out|, requestMethod))
  {
    FieldCharsClean(start);
    PrintedLines(start, lines);
    HeadersOfCons(start, lines);
  }

  lemma CompleteResponseLines(buf: string, requestMethod: string)
    requires ResponseOf(buf, requestMethod).Complete?
    ensures ReadLines(buf).Ready? && |ReadLines(buf).lines| > 0
    ensures ResponseOf(buf, requestMethod).head.headLen == ReadLines(buf).len <= |buf|
    ensures ParseStatusLine(ReadLines(buf).lines[0]).Some? && ParseHeaders(ReadLines(buf).lines[1..]).Some?
    ensures BlockLines(buf, ReadLines(buf).len) == ReadLines(buf).lines[1..]
    ensures buf[..HeadersStart(buf[..ReadLines(buf).len])] == ReadLines(buf).lines[0] + CRLF
  {
    var all := ReadLines(buf).lines;
    FieldCharsClean(all[0]);
    HeadersClean(all[1..]);
    CleanCons(all[0], all[1..]);
    assert [all[0]] + all[1..] == all;
    BlockIsLines(buf);
  }

  ghost predicate NominatesResponseFraming(nominated: seq<string>, bodyless: bool, body: BodyLength) {
    !bodyless && (("transfer-encoding" in nominated && body.Chunked?)
                  || ("content-length" in nominated && (body.Fixed? || body.Empty?)))
  }

  lemma ResponseFramingOutcome(hs: seq<Header>, out: seq<Header>, nominated: seq<string>, bodyless: bool)
    requires Values(out, "content-length") == if "content-length" in nominated then [] else Values(hs, "content-length")
    requires Values(out, "transfer-encoding") == if "transfer-encoding" in nominated then [] else Values(hs, "transfer-encoding")
    ensures var body := ResponseBody(bodyless, ChunkedBy(Values(hs, "transfer-encoding")), ResponseLength(Values(hs, "content-length")));
            var again := ResponseBody(bodyless, ChunkedBy(Values(out, "transfer-encoding")), ResponseLength(Values(out, "content-length")));
            again == body <==> !NominatesResponseFraming(nominated, bodyless, body)
  {
  }

  /**
   * Returning: re-parsing the rewritten head gives the same status and the
   * announced disposition, whatever version and Connection headers the upstream
   * sent; it gives the same body length exactly when the response does not
   * nominate its own framing header.
   */
  lemma ReturnPreservesFraming(buf: string, requestMethod: string, keepAlive: bool)
    requires ResponseOf(buf, requestMethod).Complete?
    requires ResponseOf(buf, requestMethod).head.headLen <= |buf|
    requires var lines := BlockLines(buf, ResponseOf(buf, requestMethod).head.headLen); FitsReturn(lines, Nominated(lines))
    ensures var head := ResponseOf(buf, requestMethod).head;
            var nominated := Nominated(BlockLines(buf, head.headLen));
            var out := ReturnHead(buf, head, keepAlive);
            && ResponseOf(out, requestMethod).Complete?
            && var again := ResponseOf(out, requestMethod).head;
               && again.headLen == |out|
               && again.status == head.status
               && again.closeRequested == !keepAlive
               && (again.body == head.body <==> !NominatesResponseFraming(nominated, Bodyless(requestMethod, head.status), head.body))
  {
    CompleteResponseLines(buf, requestMethod);
    var all := ReadLines(buf).lines;
    var printed := Filter(all[1..], Keeper(Nominated(all[1..]), Return)) + [Disposition(keepAlive)];
    StartThenLines(all[0], printed);
    ReturnedHead(all[0], all[1..], requestMethod, keepAlive);
  }

  lemma StartThenLines(start: string, lines: seq<string>)
    ensures start + CRLF + Unlines(lines) + CRLF == Unlines([start] + lines) + CRLF
  {
    UnlinesCons(start, lines);
  }

  /** The same, from the status line and header lines alone. */
  lemma ReturnedHead(start: string, lines: seq<string>, requestMethod: string, keepAlive: bool)
    requires ParseStatusLine(start).Some? && ParseHeaders(lines).Some? && FitsReturn(lines, Nominated(lines))
    ensures var nominated, line := Nominated(lines), ParseStatusLine(start).value;
            var first := ResponseFrom(line, ParseHeaders(lines).value, 0, requestMethod);
            var out := Unlines([start] + (Filter(lines, Keeper(nominated, Return)) + [Disposition(keepAlive)])) + CRLF;
            && ResponseOf(out, requestMethod).Complete?
            && var again := ResponseOf(out, requestMethod).head;
               && again.headLen == |out| && again.status == line.status && again.closeRequested == !keepAlive
               && (again.body == first.body <==> !NominatesResponseFraming(nominated, Bodyless(requestMethod, line.status), first.body))
  {
    var nominated, line := Nominated(lines), ParseStatusLine(start).value;
    var printed := Filter(lines, Keeper(nominated, Return)) + [Disposition(keepAlive)];
    ReturnLinesParse(lines, nominated, keepAlive);
    PrintedResponse(start, printed, requestMethod);
    DispositionDecides(keepAlive, !line.http11);
    ResponseFramingOutcome(ParseHeaders(lines).value, ParseHeaders(printed).value, nominated, Bodyless(requestMethod, line.status));
  }

  // ----- errors the proxy makes itself ----------------------------------------

  ghost predicate StatusText(code: string) {
    && |code| >= 3 && IsDigit(code[0]) && IsDigit(code[1]) && IsDigit(code[2])
    && (|code| == 3 || code[3] == ' ') && FieldText(code)
  }

  ghost function StatusValue(code: string): nat
    requires StatusText(code)
  {
    100 * Digit(code[0]) + 10 * Digit(code[1]) + Digit(code[2])
  }

  lemma ErrorStatusLine(code: string)
    requires StatusText(code)
    ensures ParseStatusLine("HTTP/1.1 " + code)
         == Some(StatusLine(StatusValue(code), true))
  {
    var l := "HTTP/1.1 " + code;
    assert l[..9] == "HTTP/1.1 ";
    assert l[9] == code[0] && l[10] == code[1] && l[11] == code[2];
    forall i | 0 <= i < |l| ensures IsFieldChar(l[i]) { if i >= 9 { assert l[i] == code[i - 9]; } }
  }

  lemma LengthHeaderName()
    ensures Tokens("Content-Length") && Lower("Content-Length") == "content-length"
  {
  }

  lemma ZeroLength()
    ensures FieldText("0") && Trimmed("0") && ParseLength("0") == Some(0)
    ensures Tokens("Content-Length") && Lower("Content-Length") == "content-length"
  {
    LengthHeaderName();
    AsciiIsUtf8("0");
    assert TrimText("0") == "0";
    assert DigitsValue("0"[..0]) == 0;
    assert DigitsValue("0") == 0;
  }

  function ErrorFields(): seq<Header> {
    [Header("Content-Length", "0"), Header("Connection", DispositionToken(false))]
  }

  lemma ErrorValues()
    ensures var hs := ErrorFields();
            && Values(hs, "content-length") == ["0"]
            && Values(hs, "transfer-encoding") == []
            && Values(hs, "connection") == [DispositionToken(false)]
  {
    var a, b := Header("Content-Length", "0"), Header("Connection", DispositionToken(false));
    ZeroLength();
    LiteralNames();
    assert [a] + [b] == [a, b];
    assert |"content-length"| == 14 && |"transfer-encoding"| == 17 && |"connection"| == 10;
    ValuesCons(a, [b], "content-length");
    ValuesCons(a, [b], "transfer-encoding");
    ValuesCons(a, [b], "connection");
    ValuesOne(b, "content-length");
    ValuesOne(b, "transfer-encoding");
    ValuesOne(b, "connection");
  }

  /** Every proxy-made error reads as its status, without body, and closes the connection. */
  lemma ErrorResponseCloses(code: string, requestMethod: string)
    requires StatusText(code)
    ensures var out := ErrorResponse(code);
            ResponseOf(out, requestMethod) == Complete(ResponseHead(|out|, StatusValue(code), Empty, true))
  {
    var out := ErrorResponse(code);
    var start := "HTTP/1.1 " + code;
    assert out == Unlines([start] + ErrorLines()) + CRLF;
    ErrorStatusLine(code);
    ErrorHeaders();
    PrintedError(start, ErrorLines(), out, requestMethod);
    assert ParseStatusLine(start).value.status == StatusValue(code);
  }

  lemma PrintedError(start: string, lines: seq<string>, out: string, requestMethod: string)
    requires out == Unlines([start] + lines) + CRLF && |lines| <= MAX_HEADERS
    requires ParseStatusLine(start).Some? && ParseStatusLine(start).value.http11
    requires ParseHeaders(lines) == Some(ErrorFields())
    ensures ResponseOf(out, requestMethod) == Complete(ResponseHead(|out|, ParseStatusLine(start).value.status, Empty, true))
  {
    PrintedResponse(start, lines, requestMethod);
    ErrorFraming(ParseStatusLine(start).value, |out|, requestMethod);
  }

  lemma PairParses(a: string, ha: Header, b: string, hb: Header, parse: string -> Option<Header>)
    requires parse(a) == Some(ha) && parse(b) == Some(hb)
    ensures ParseAll([a, b], parse) == Some([ha, hb])
  {
    TwoLines(a, ha, b, hb, parse);
    assert [a] + [] + [b] == [a, b];
  }

  lemma ErrorHeaders()
    ensures |ErrorLines()| == 2
    ensures ParseHeaders(ErrorLines())
         == Some(ErrorFields())
  {
    ErrorHeaderLines();
    PairParses(HeaderLine("Content-Length", "0"), Header("Content-Length", "0"),
               Disposition(false), Header("Connection", DispositionToken(false)), ParseHeader);
  }

  lemma ErrorFraming(line: StatusLine, len: nat, requestMethod: string)
    requires line.http11
    ensures ResponseFrom(line, ErrorFields(), len, requestMethod)
         == ResponseHead(len, line.status, Empty, true)
  {
    ErrorValues();
    ZeroLength();
    DispositionDecides(false, false);
  }

  lemma ErrorHeaderLines()
    ensures ParseHeader(HeaderLine("Content-Length", "0")) == Some(Header("Content-Length", "0"))
    ensures ParseHeader(Disposition(false)) == Some(Header("Connection", DispositionToken(false)))
  {
    ZeroLength();
    PrintedHeader("Content-Length", "0");
    DispositionParses(false);
  }
}
