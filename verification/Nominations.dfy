/**
 * Concrete messages on which a `Connection` nomination breaks a property that
 * holds otherwise: the framing of a rewritten head, and the agreement of the two
 * hop-by-hop filters.
 */
module Nominations {
  import opened Text
  import opened Http1
  import opened Http1Writer
  import opened Http1Framing
  import opened HopByHop

  // ----- a message that nominates its own Content-Length -------------------------

  const LENGTH_NAME := "content-length"

  /** `Connection: content-length` and `Content-Length: 5`. */
  function NominatingLines(): seq<string> {
    [HeaderLine("Connection", LENGTH_NAME), HeaderLine("Content-Length", "5")]
  }

  function NominatingHeaders(): seq<Header> {
    [Header("Connection", LENGTH_NAME), Header("Content-Length", "5")]
  }

  lemma LengthName()
    ensures Tokens(LENGTH_NAME) && FieldText(LENGTH_NAME) && Trimmed(LENGTH_NAME) && Lower(LENGTH_NAME) == LENGTH_NAME
    ensures |LENGTH_NAME| == 14 && ',' !in LENGTH_NAME
  {
  }

  lemma FiveParses()
    ensures FieldText("5") && Trimmed("5") && ParseLength("5") == Some(5)
    ensures Tokens("Content-Length") && Lower("Content-Length") == LENGTH_NAME
  {
    AsciiIsUtf8("5");
    assert TrimText("5") == "5";
    assert DigitsValue("5"[..0]) == 0;
    assert DigitsValue("5") == 5;
  }

  lemma NominatingParses()
    ensures ParseHeaders(NominatingLines()) == Some(NominatingHeaders())
  {
    LengthName();
    FiveParses();
    LiteralNames();
    PrintedHeader("Connection", LENGTH_NAME);
    PrintedHeader("Content-Length", "5");
    PairParses(HeaderLine("Connection", LENGTH_NAME), Header("Connection", LENGTH_NAME),
               HeaderLine("Content-Length", "5"), Header("Content-Length", "5"), ParseHeader);
  }

  /** The values of a name in a list of two headers. */
  lemma PairValues(a: Header, b: Header, name: string)
    ensures Values([a, b], name) == (if Lower(a.name) == name then [a.value] else []) + (if Lower(b.name) == name then [b.value] else [])
  {
    assert [a] + [b] == [a, b];
    ValuesCons(a, [b], name);
    ValuesOne(b, name);
  }

  lemma NominatingValues()
    ensures var hs := NominatingHeaders();
            && Values(hs, "connection") == [LENGTH_NAME]
            && Values(hs, "content-length") == ["5"]
            && Values(hs, "transfer-encoding") == []
  {
    var a, b := Header("Connection", LENGTH_NAME), Header("Content-Length", "5");
    LengthName();
    FiveParses();
    LiteralNames();
    assert |"connection"| == 10 && |"content-length"| == 14 && |"transfer-encoding"| == 17;
    PairValues(a, b, "connection");
    PairValues(a, b, "content-length");
    PairValues(a, b, "transfer-encoding");
  }

  lemma NoComma(v: string)
    requires ',' !in v
    ensures Split(v, ',') == [v]
  {
    assert forall i :: 0 <= i < |v| ==> v[i] in v;
  }

  lemma FlatOne(t: string, f: string -> seq<string>)
    ensures FlatMap([t], f) == f(t)
  {
    assert [t][1..] == [];
    assert f(t) + [] == f(t);
  }

  /** A lower-case token that is no disposition nominates itself. */
  lemma TokenNominates(t: string)
    requires Tokens(t) && t != "" && Lower(t) == t && t != "close" && t != "keep-alive"
    ensures NominatedToken(t) == [t]
  {
    TokensUntrimmed(t);
  }

  lemma LengthNominated()
    ensures LENGTH_NAME in Nominated(NominatingLines())
  {
    NominatingParses();
    NominatingValues();
    LineFilter(NominatingLines());
    LengthName();
    NoComma(LENGTH_NAME);
    assert |"close"| == 5 && |"keep-alive"| == 10;
    TokenNominates(LENGTH_NAME);
    FlatOne(LENGTH_NAME, NominatedToken);
    FlatOne(LENGTH_NAME, NominatedIn);
  }

  lemma FilterShortens(lines: seq<string>, keep: string -> bool)
    ensures |Filter(lines, keep)| <= |lines|
  {
  }

  /** The bytes of a head with these two header lines. */
  function HeadOf(start: string): string {
    Unlines([start] + NominatingLines()) + CRLF
  }

  lemma HeadLines(start: string, buf: string)
    requires buf == HeadOf(start) && CleanLine(start) && Clean(NominatingLines())
    ensures ReadLines(buf).Ready? && ReadLines(buf).lines == [start] + NominatingLines()
  {
    CleanCons(start, NominatingLines());
    ReadUnlines([start] + NominatingLines(), "");
    assert HeadOf(start) + "" == HeadOf(start);
    assert Unlines([start] + NominatingLines()) + CRLF + "" == HeadOf(start);
  }

  /** The lines the writers see. */
  lemma SeenLines(start: string, buf: string, headLen: nat)
    requires buf == HeadOf(start) && CleanLine(start)
    requires ReadLines(buf).Ready? && headLen == ReadLines(buf).len <= |buf|
    requires BlockLines(buf, headLen) == if ReadLines(buf).lines == [] then [] else ReadLines(buf).lines[1..]
    ensures BlockLines(buf, headLen) == NominatingLines()
  {
    NominatingParses();
    HeadersClean(NominatingLines());
    HeadLines(start, buf);
    assert ([start] + NominatingLines())[1..] == NominatingLines();
  }

  lemma RequestHeadOf(buf: string)
    requires buf == HeadOf("POST" + " " + "/" + " HTTP/1.1")
    ensures RequestOf(buf).Complete? && RequestOf(buf).head.headLen <= |buf|
    ensures RequestOf(buf).head.body == Fixed(5)
    ensures BlockLines(buf, RequestOf(buf).head.headLen) == NominatingLines()
  {
    var start := "POST" + " " + "/" + " HTTP/1.1";
    PrintedRequestLine("POST", "/");
    NominatingParses();
    PrintedRequest(start, NominatingLines());
    NominatingFraming(RequestLine("POST", "/", true), |buf|);
    CompleteRequestLines(buf);
    RequestLineClean(start);
    SeenLines(start, buf, ReadLines(buf).len);
  }

  lemma NominatingFraming(line: RequestLine, len: nat)
    ensures RequestFrom(line, NominatingHeaders(), len).Complete?
    ensures RequestFrom(line, NominatingHeaders(), len).head.body == Fixed(5)
  {
    NominatingValues();
    FiveParses();
    OneLength("5");
  }

  lemma OneLength(v: string)
    requires ParseLength(v).Some?
    ensures RequestLength([v]) == Some(ParseLength(v))
  {
    var vals: seq<string> := [v];
    assert vals[..0] == [];
    assert RequestLength(vals[..0]) == Some(None);
  }

  /**
   * A request that nominates its Content-Length: the client's five body bytes are
   * framed on arrival, and the forwarded head announces another body length.
   */
  lemma ForwardedFramingLost(target: string, upstreamHost: string)
    requires target != "" && TargetText(target) && Addressable(upstreamHost, None)
    ensures var buf := HeadOf("POST" + " " + "/" + " HTTP/1.1");
            && RequestOf(buf).Complete? && RequestOf(buf).head.headLen <= |buf|
            && var head := RequestOf(buf).head;
               && head.body == Fixed(5)
               && RequestOf(ForwardHead(buf, head, target, upstreamHost, None)).Complete?
               && RequestOf(ForwardHead(buf, head, target, upstreamHost, None)).head.body != Fixed(5)
  {
    var buf := HeadOf("POST" + " " + "/" + " HTTP/1.1");
    RequestHeadOf(buf);
    LengthNominated();
    FilterShortens(NominatingLines(), Keeper(Nominated(NominatingLines()), Forward));
    ForwardPreservesFraming(buf, target, upstreamHost, None);
  }

  lemma ResponseHeadOf(buf: string)
    requires buf == HeadOf("HTTP/1.1 " + "200 OK")
    ensures ResponseOf(buf, "GET").Complete? && ResponseOf(buf, "GET").head.headLen <= |buf|
    ensures ResponseOf(buf, "GET").head.body == Fixed(5) && ResponseOf(buf, "GET").head.status == 200
    ensures BlockLines(buf, ResponseOf(buf, "GET").head.headLen) == NominatingLines()
  {
    var start := "HTTP/1.1 " + "200 OK";
    ErrorStatusLine("200 OK");
    NominatingParses();
    PrintedResponse(start, NominatingLines(), "GET");
    NominatingReply(StatusLine(200, true), |buf|);
    CompleteResponseLines(buf, "GET");
    FieldCharsClean(start);
    SeenLines(start, buf, ReadLines(buf).len);
  }

  lemma NominatingReply(line: StatusLine, len: nat)
    requires line.status == 200
    ensures ResponseFrom(line, NominatingHeaders(), len, "GET").body == Fixed(5)
    ensures !Bodyless("GET", 200)
  {
    NominatingValues();
    FiveParses();
    assert Lower("GET")[0] == 'g' && |"head"| == 4;
  }

  /** A response that nominates its Content-Length: the returned head announces another body length. */
  lemma ReturnedFramingLost(keepAlive: bool)
    ensures var buf := HeadOf("HTTP/1.1 " + "200 OK");
            && ResponseOf(buf, "GET").Complete? && ResponseOf(buf, "GET").head.headLen <= |buf|
            && var head := ResponseOf(buf, "GET").head;
               && head.body == Fixed(5)
               && ResponseOf(ReturnHead(buf, head, keepAlive), "GET").Complete?
               && ResponseOf(ReturnHead(buf, head, keepAlive), "GET").head.body != Fixed(5)
  {
    var buf := HeadOf("HTTP/1.1 " + "200 OK");
    ResponseHeadOf(buf);
    NominatingReply(StatusLine(200, true), |buf|);
    LengthNominated();
    FilterShortens(NominatingLines(), Keeper(Nominated(NominatingLines()), Return));
    ReturnPreservesFraming(buf, "GET", keepAlive);
  }

  // ----- a Connection value only one filter can read --------------------------------

  /** `x-a` and a byte outside ASCII. */
  const MIXED: string := "x-a" + "," + [0x80 as char]

  function MixedLines(): seq<string> {
    [HeaderLine("Connection", MIXED), HeaderLine("x-a", "1")]
  }

  lemma MixedParses()
    ensures ParseHeaders(MixedLines()) == Some([Header("Connection", MIXED), Header("x-a", "1")])
  {
    LiteralNames();
    assert FieldText(MIXED) && Trimmed(MIXED) && FieldText("1") && Trimmed("1") && Tokens("x-a");
    PrintedHeader("Connection", MIXED);
    PrintedHeader("x-a", "1");
    PairParses(HeaderLine("Connection", MIXED), Header("Connection", MIXED),
               HeaderLine("x-a", "1"), Header("x-a", "1"), ParseHeader);
  }

  lemma FirstComma(a: string, b: string)
    requires ',' !in a
    ensures IndexOf(a + "," + b, ',') == |a|
  {
    var s := a + "," + b;
    assert s[|a|] == ',';
    forall i | 0 <= i < |a| ensures s[i] != ',' { assert s[i] == a[i] && a[i] in a; }
  }

  lemma MixedNominates()
    ensures !Visible(MIXED) && "x-a" in NominatedIn(MIXED)
  {
    assert MIXED[4] == 0x80 as char;
    FirstComma("x-a", [0x80 as char]);
    SplitHead(MIXED, 3);
    assert MIXED[..3] == "x-a";
    TokenNominates("x-a");
  }

  lemma MixedHeaders()
    ensures LowerNames([Header("Connection", MIXED), Header("x-a", "1")]) == [Header("connection", MIXED), Header("x-a", "1")]
  {
    LiteralNames();
    assert Lower("x-a") == "x-a";
  }

  lemma NotFixed()
    ensures "x-a" !in ["connection"] + MAP_HOP_BY_HOP
  {
  }

  /**
   * The byte-line filter drops `x-a`, nominated beside an unreadable byte; the
   * header-map filter skips that Connection value and keeps it.
   */
  lemma FiltersDiffer()
    ensures ParseHeaders(MixedLines()).Some?
    ensures ParseHeaders(Filter(MixedLines(), Keeper(Nominated(MixedLines()), Return))).Some?
    ensures var hs := LowerNames(ParseHeaders(MixedLines()).value);
            LowerNames(ParseHeaders(Filter(MixedLines(), Keeper(Nominated(MixedLines()), Return))).value) != Without(hs, MapDropped(hs))
  {
    var hs := [Header("connection", MIXED), Header("x-a", "1")];
    MixedParses();
    MixedHeaders();
    MixedValues();
    FiltersAgree(MixedLines());
    assert hs[1] in hs;
  }

  lemma MixedValues()
    ensures var hs := [Header("connection", MIXED), Header("x-a", "1")];
            && Values(hs, "connection") == [MIXED]
            && "x-a" in Unreadable([MIXED]) && "x-a" !in MapDropped(hs)
  {
    var a, b := Header("connection", MIXED), Header("x-a", "1");
    assert Lower("connection") == "connection" && Lower("x-a") == "x-a";
    PairValues(a, b, "connection");
    MixedNominates();
    FlatOne(MIXED, UnreadableIn);
    FlatOne(MIXED, MapNominatedIn);
    NotFixed();
  }
}
