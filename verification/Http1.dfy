/** HTTP/1.1 heads: line grammar, framing rules and the two head parsers. */
module Http1 {
  import opened Text

  const MAX_HEAD_SIZE: nat := 64 * 1024
  const MAX_HEADERS: nat := 96
  const CRLF := "\r\n"
  const U64_LIMIT: nat := 0x1_0000_0000_0000_0000

  datatype BodyLength = Fixed(length: nat) | Chunked | UntilClose | Empty

  datatype RequestHead = RequestHead(headLen: nat, method_: string, target: string, host: Option<string>,
                                     body: BodyLength, closeRequested: bool)
  datatype ResponseHead = ResponseHead(headLen: nat, status: nat, body: BodyLength, closeRequested: bool)

  datatype Parsed<T> = Complete(head: T) | Partial | Invalid

  datatype Header = Header(name: string, value: string)

  // ----- lines -------------------------------------------------------------

  /** Position of the first CRLF, or `|s|` when there is none. */
  function FindCrlf(s: string): (i: nat)
    ensures i <= |s|
    ensures i < |s| ==> i + 1 < |s| && s[i] == '\r' && s[i + 1] == '\n'
    ensures forall j :: 0 <= j < i && j + 1 < |s| ==> !(s[j] == '\r' && s[j + 1] == '\n')
  {
    if |s| < 2 then |s|
    else if s[0] == '\r' && s[1] == '\n' then 0
    else 1 + FindCrlf(s[1..])
  }

  /** The non-empty lines up to the first empty one, and the bytes they take. */
  datatype Lines = Ready(lines: seq<string>, len: nat) | NeedMore

  function ReadLines(buf: string): Lines {
    var i := FindCrlf(buf);
    if i == |buf| then NeedMore
    else if i == 0 then Ready([], 2)
    else match ReadLines(buf[i + 2..])
      case NeedMore => NeedMore
      case Ready(ls, n) => Ready([buf[..i]] + ls, i + 2 + n)
  }

  function Unlines(ls: seq<string>): string {
    if ls == [] then "" else ls[0] + CRLF + Unlines(ls[1..])
  }

  // ----- characters --------------------------------------------------------

  predicate IsDigit(c: char) {
    '0' <= c <= '9'
  }

  /** Visible ASCII except the delimiters. */
  predicate IsToken(c: char) {
    && '!' <= c <= '~'
    && c != '"' && c != '(' && c != ')' && c != ',' && c != '/' && c != ':' && c != ';' && c != '<' && c != '='
    && c != '>' && c != '?' && c != '@' && c != '[' && c != '\\' && c != ']' && c != '{' && c != '}'
  }

  predicate IsTargetChar(c: char) {
    c > ' ' && c != 127 as char
  }

  predicate IsFieldChar(c: char) {
    c == '\t' || (c >= ' ' && c != 127 as char)
  }

  predicate Tokens(s: string) {
    forall i :: 0 <= i < |s| ==> IsToken(s[i])
  }

  predicate TargetText(s: string) {
    forall i :: 0 <= i < |s| ==> IsTargetChar(s[i])
  }

  predicate FieldText(s: string) {
    forall i :: 0 <= i < |s| ==> IsFieldChar(s[i])
  }

  predicate Digits(s: string) {
    forall i :: 0 <= i < |s| ==> IsDigit(s[i])
  }

  predicate IsCont(c: char) {
    0x80 as char <= c <= 0xBF as char
  }

  /** Well-formed UTF-8, as `simdutf8` checks it. */
  predicate ValidUtf8(s: string) {
    if s == "" then true
    else
      var b := s[0] as int;
      if b < 0x80 then ValidUtf8(s[1..])
      else if 0xC2 <= b <= 0xDF then |s| >= 2 && IsCont(s[1]) && ValidUtf8(s[2..])
      else if 0xE0 <= b <= 0xEF then
        && |s| >= 3 && IsCont(s[1]) && IsCont(s[2])
        && (b == 0xE0 ==> s[1] as int >= 0xA0) && (b == 0xED ==> s[1] as int <= 0x9F)
        && ValidUtf8(s[3..])
      else if 0xF0 <= b <= 0xF4 then
        && |s| >= 4 && IsCont(s[1]) && IsCont(s[2]) && IsCont(s[3])
        && (b == 0xF0 ==> s[1] as int >= 0x90) && (b == 0xF4 ==> s[1] as int <= 0x8F)
        && ValidUtf8(s[4..])
      else false
  }

  // ----- start lines and header lines --------------------------------------

  datatype RequestLine = RequestLine(method_: string, target: string, http11: bool)

  function ParseRequestLine(line: string): Option<RequestLine> {
    var a := IndexOf(line, ' ');
    if a == |line| then None
    else
      var rest := line[a + 1..];
      var b := IndexOf(rest, ' ');
      if b == |rest| then None
      else
        var (m, t, v) := (line[..a], rest[..b], rest[b + 1..]);
        if m != "" && Tokens(m) && t != "" && TargetText(t) && (v == "HTTP/1.1" || v == "HTTP/1.0")
        then Some(RequestLine(m, t, v == "HTTP/1.1")) else None
  }

  datatype StatusLine = StatusLine(status: nat, http11: bool)

  function ParseStatusLine(line: string): Option<StatusLine> {
    if && |line| >= 12 && (line[..9] == "HTTP/1.1 " || line[..9] == "HTTP/1.0 ")
       && IsDigit(line[9]) && IsDigit(line[10]) && IsDigit(line[11])
       && (|line| == 12 || line[12] == ' ') && FieldText(line)
    then Some(StatusLine(100 * Digit(line[9]) + 10 * Digit(line[10]) + Digit(line[11]), line[..9] == "HTTP/1.1 "))
    else None
  }

  function Digit(c: char): (d: nat)
    requires IsDigit(c)
    ensures d < 10
  {
    c as int - '0' as int
  }

  function ParseHeader(line: string): Option<Header> {
    var c := IndexOf(line, ':');
    if c < |line| && c > 0 && Tokens(line[..c]) && FieldText(line[c + 1..])
    then Some(Header(line[..c], Trim(line[c + 1..], Ows))) else None
  }

  function ParseAll(lines: seq<string>, parse: string -> Option<Header>): Option<seq<Header>> {
    if lines == [] then Some([])
    else
      var h, hs := parse(lines[0]), ParseAll(lines[1..], parse);
      if h.Some? && hs.Some? then Some([h.value] + hs.value) else None
  }

  function ParseHeaders(lines: seq<string>): Option<seq<Header>> {
    ParseAll(lines, ParseHeader)
  }

  // ----- field values ------------------------------------------------------

  /** Bytes of Unicode white space at the front of `s`, as `str::trim` removes it. */
  function LeadingSpace(s: string): (n: nat)
    ensures n <= |s|
  {
    if |s| >= 1 && (IsAsciiSpace(s[0]) || s[0] == 11 as char) then 1
    else if |s| >= 2 && s[0] as int == 0xC2 && s[1] as int in {0x85, 0xA0} then 2
    else if |s| >= 3 && IsWideSpace(s[0] as int, s[1] as int, s[2] as int) then 3
    else 0
  }

  function TrailingSpace(s: string): (n: nat)
    ensures n <= |s|
  {
    var e := |s|;
    if e >= 1 && (IsAsciiSpace(s[e - 1]) || s[e - 1] == 11 as char) then 1
    else if e >= 2 && s[e - 2] as int == 0xC2 && s[e - 1] as int in {0x85, 0xA0} then 2
    else if e >= 3 && IsWideSpace(s[e - 3] as int, s[e - 2] as int, s[e - 1] as int) then 3
    else 0
  }

  predicate IsWideSpace(a: int, b: int, c: int) {
    || (a == 0xE1 && b == 0x9A && c == 0x80)
    || (a == 0xE2 && b == 0x80 && (0x80 <= c <= 0x8A || c in {0xA8, 0xA9, 0xAF}))
    || (a == 0xE2 && b == 0x81 && c == 0x9F)
    || (a == 0xE3 && b == 0x80 && c == 0x80)
  }

  /** `str::trim`. */
  function TrimText(s: string): string
    decreases |s|
  {
    if LeadingSpace(s) > 0 then TrimText(s[LeadingSpace(s)..])
    else if TrailingSpace(s) > 0 then TrimText(s[..|s| - TrailingSpace(s)])
    else s
  }

  function DigitsValue(s: string): nat
    requires Digits(s)
  {
    if s == "" then 0 else 10 * DigitsValue(s[..|s| - 1]) + Digit(s[|s| - 1])
  }

  /** `parse::<u64>`: an optional plus sign, digits, no overflow. */
  function ParseU64(s: string): Option<nat> {
    var digits := if s != "" && s[0] == '+' then s[1..] else s;
    if digits != "" && Digits(digits) && DigitsValue(digits) < U64_LIMIT then Some(DigitsValue(digits)) else None
  }

  function ParseLength(value: string): Option<nat> {
    if ValidUtf8(value) then ParseU64(TrimText(value)) else None
  }

  /** Whether the last coding of a Transfer-Encoding value is chunked. */
  predicate LastIsChunked(value: string) {
    var parts := Split(value, ',');
    Lower(TrimText(parts[|parts| - 1])) == "chunked"
  }

  /** The tokens of one Connection value, applied in order to the disposition. */
  function ApplyTokens(tokens: seq<string>, close: bool): bool {
    if tokens == [] then close
    else
      var t := Lower(TrimText(tokens[0]));
      ApplyTokens(tokens[1..], if t == "close" then true else if t == "keep-alive" then false else close)
  }

  // ----- framing, stated over the values of each header name ----------------

  /** The values of all headers called `name` (given in lower case), in order. */
  function Values(hs: seq<Header>, name: string): seq<string> {
    if hs == [] then []
    else
      var n := |hs| - 1;
      Values(hs[..n], name) + (if Lower(hs[n].name) == name then [hs[n].value] else [])
  }

  /** All Content-Length values of a request must parse; the last one counts. */
  function RequestLength(vals: seq<string>): Option<Option<nat>> {
    if vals == [] then Some(None)
    else
      var n := |vals| - 1;
      if RequestLength(vals[..n]).None? || ParseLength(vals[n]).None? then None
      else Some(ParseLength(vals[n]))
  }

  /** In a response an unreadable Content-Length counts as absent. */
  function ResponseLength(vals: seq<string>): Option<nat> {
    if vals == [] then None else ParseLength(vals[|vals| - 1])
  }

  /** The last readable Transfer-Encoding decides. */
  function ChunkedBy(vals: seq<string>): bool {
    if vals == [] then false
    else
      var n := |vals| - 1;
      if ValidUtf8(vals[n]) then LastIsChunked(vals[n]) else ChunkedBy(vals[..n])
  }

  function CloseBy(vals: seq<string>, start: bool): bool {
    if vals == [] then start
    else
      var n := |vals| - 1;
      var before := CloseBy(vals[..n], start);
      if ValidUtf8(vals[n]) then ApplyTokens(Split(vals[n], ','), before) else before
  }

  function HostBy(vals: seq<string>): Option<string> {
    if vals == [] then None
    else if ValidUtf8(vals[|vals| - 1]) then Some(vals[|vals| - 1]) else None
  }

  /** Transfer-Encoding wins over Content-Length. */
  function RequestBody(chunked: bool, length: Option<nat>): BodyLength {
    if chunked then Chunked
    else if length.None? || length.value == 0 then Empty
    else Fixed(length.value)
  }

  predicate Bodyless(requestMethod: string, status: nat) {
    Lower(requestMethod) == "head" || status == 204 || status == 304 || 100 <= status < 200
  }

  function ResponseBody(bodyless: bool, chunked: bool, length: Option<nat>): BodyLength {
    if bodyless then Empty
    else if chunked then Chunked
    else if length.None? then UntilClose
    else if length.value == 0 then Empty
    else Fixed(length.value)
  }

  // ----- the parsers, as functions of the buffer -----------------------------

  /** Start line and headers of a complete head, when they are well formed. */
  function HeadersOf(lines: seq<string>): Option<seq<Header>> {
    if |lines| == 0 || |lines| - 1 > MAX_HEADERS then None else ParseHeaders(lines[1..])
  }

  function RequestFrom(line: RequestLine, hs: seq<Header>, len: nat): Parsed<RequestHead> {
    match RequestLength(Values(hs, "content-length"))
    case None => Invalid
    case Some(length) =>
      Complete(RequestHead(len, line.method_, line.target, HostBy(Values(hs, "host")),
                           RequestBody(ChunkedBy(Values(hs, "transfer-encoding")), length),
                           CloseBy(Values(hs, "connection"), !line.http11)))
  }

  function RequestOf(buf: string): Parsed<RequestHead> {
    match ReadLines(buf)
    case NeedMore => Partial
    case Ready(lines, len) =>
      if HeadersOf(lines).None? || ParseRequestLine(lines[0]).None? then Invalid
      else RequestFrom(ParseRequestLine(lines[0]).value, HeadersOf(lines).value, len)
  }

  function ResponseFrom(line: StatusLine, hs: seq<Header>, len: nat, requestMethod: string): ResponseHead {
    ResponseHead(len, line.status,
                 ResponseBody(Bodyless(requestMethod, line.status), ChunkedBy(Values(hs, "transfer-encoding")),
                              ResponseLength(Values(hs, "content-length"))),
                 CloseBy(Values(hs, "connection"), !line.http11))
  }

  function ResponseOf(buf: string, requestMethod: string): Parsed<ResponseHead> {
    match ReadLines(buf)
    case NeedMore => Partial
    case Ready(lines, len) =>
      if HeadersOf(lines).None? || ParseStatusLine(lines[0]).None? then Invalid
      else Complete(ResponseFrom(ParseStatusLine(lines[0]).value, HeadersOf(lines).value, len, requestMethod))
  }

  // ----- the parsers, as the header loops of the code ------------------------

  method ApplyConnection(value: string, closeIn: bool) returns (close: bool)
    ensures close == ApplyTokens(Split(value, ','), closeIn)
  {
    close := closeIn;
    var tokens := Split(value, ',');
    for i := 0 to |tokens|
      invariant ApplyTokens(tokens[i..], close) == ApplyTokens(tokens, closeIn)
    {
      assert tokens[i..][1..] == tokens[i + 1..];
      var token := Lower(TrimText(tokens[i]));
      if token == "close" {
        close := true;
      } else if token == "keep-alive" {
        close := false;
      }
    }
  }

  lemma ValuesSnoc(hs: seq<Header>, i: nat, name: string)
    requires i < |hs|
    ensures Lower(hs[i].name) == name ==> Values(hs[..i + 1], name) == Values(hs[..i], name) + [hs[i].value]
    ensures Lower(hs[i].name) != name ==> Values(hs[..i + 1], name) == Values(hs[..i], name)
  {
    assert hs[..i + 1][..i] == hs[..i];
  }

  lemma HostStep(hs: seq<Header>, i: nat)
    requires i < |hs|
    ensures HostBy(Values(hs[..i + 1], "host"))
         == if Lower(hs[i].name) != "host" then HostBy(Values(hs[..i], "host"))
            else if ValidUtf8(hs[i].value) then Some(hs[i].value) else None
  {
    ValuesSnoc(hs, i, "host");
  }

  lemma LengthStep(hs: seq<Header>, i: nat)
    requires i < |hs|
    ensures RequestLength(Values(hs[..i + 1], "content-length"))
         == var before := RequestLength(Values(hs[..i], "content-length"));
            if Lower(hs[i].name) != "content-length" then before
            else if before.None? || ParseLength(hs[i].value).None? then None else Some(ParseLength(hs[i].value))
    ensures ResponseLength(Values(hs[..i + 1], "content-length"))
         == if Lower(hs[i].name) != "content-length" then ResponseLength(Values(hs[..i], "content-length"))
            else ParseLength(hs[i].value)
  {
    ValuesSnoc(hs, i, "content-length");
    var vals := Values(hs[..i], "content-length");
    assert (vals + [hs[i].value])[..|vals|] == vals;
  }

  lemma ChunkedStep(hs: seq<Header>, i: nat)
    requires i < |hs|
    ensures ChunkedBy(Values(hs[..i + 1], "transfer-encoding"))
         == if Lower(hs[i].name) != "transfer-encoding" || !ValidUtf8(hs[i].value)
            then ChunkedBy(Values(hs[..i], "transfer-encoding")) else LastIsChunked(hs[i].value)
  {
    ValuesSnoc(hs, i, "transfer-encoding");
    var vals := Values(hs[..i], "transfer-encoding");
    assert (vals + [hs[i].value])[..|vals|] == vals;
  }

  lemma CloseStep(hs: seq<Header>, i: nat, start: bool)
    requires i < |hs|
    ensures CloseBy(Values(hs[..i + 1], "connection"), start)
         == var before := CloseBy(Values(hs[..i], "connection"), start);
            if Lower(hs[i].name) != "connection" || !ValidUtf8(hs[i].value)
            then before else ApplyTokens(Split(hs[i].value, ','), before)
  {
    ValuesSnoc(hs, i, "connection");
    var vals := Values(hs[..i], "connection");
    assert (vals + [hs[i].value])[..|vals|] == vals;
  }

  method ScanRequest(line: RequestLine, hs: seq<Header>, len: nat) returns (r: Parsed<RequestHead>)
    ensures r == RequestFrom(line, hs, len)
  {
    var host: Option<string> := None;
    var contentLength: Option<nat> := None;
    var chunked, close := false, !line.http11;
    for i := 0 to |hs|
      invariant host == HostBy(Values(hs[..i], "host"))
      invariant RequestLength(Values(hs[..i], "content-length")) == Some(contentLength)
      invariant chunked == ChunkedBy(Values(hs[..i], "transfer-encoding"))
      invariant close == CloseBy(Values(hs[..i], "connection"), !line.http11)
    {
      HostStep(hs, i);
      LengthStep(hs, i);
      ChunkedStep(hs, i);
      CloseStep(hs, i, !line.http11);
      var name, value := Lower(hs[i].name), hs[i].value;
      if name == "host" {
        host := if ValidUtf8(value) then Some(value) else None;
      } else if name == "content-length" {
        contentLength := ParseLength(value);
        if contentLength.None? {
          BadLengthStays(hs, i + 1);
          return Invalid;
        }
      } else if name == "transfer-encoding" {
        if ValidUtf8(value) {
          chunked := LastIsChunked(value);
        }
      } else if name == "connection" {
        if ValidUtf8(value) {
          close := ApplyConnection(value, close);
        }
      }
    }
    assert hs[..|hs|] == hs;
    r := Complete(RequestHead(len, line.method_, line.target, host, RequestBody(chunked, contentLength), close));
  }

  lemma {:induction false} BadLengthStays(hs: seq<Header>, i: nat)
    requires i <= |hs| && RequestLength(Values(hs[..i], "content-length")).None?
    ensures RequestLength(Values(hs, "content-length")).None?
    decreases |hs| - i
  {
    if i < |hs| {
      LengthStep(hs, i);
      BadLengthStays(hs, i + 1);
    } else {
      assert hs[..i] == hs;
    }
  }

  method ParseRequest(buf: string) returns (r: Parsed<RequestHead>)
    ensures r == RequestOf(buf)
  {
    match ReadLines(buf) {
      case NeedMore =>
        r := Partial;
      case Ready(lines, len) =>
        if HeadersOf(lines).None? || ParseRequestLine(lines[0]).None? {
          return Invalid;
        }
        r := ScanRequest(ParseRequestLine(lines[0]).value, HeadersOf(lines).value, len);
    }
  }

  method ScanResponse(line: StatusLine, hs: seq<Header>, len: nat, requestMethod: string) returns (r: ResponseHead)
    ensures r == ResponseFrom(line, hs, len, requestMethod)
  {
    var contentLength: Option<nat> := None;
    var chunked, close := false, !line.http11;
    for i := 0 to |hs|
      invariant contentLength == ResponseLength(Values(hs[..i], "content-length"))
      invariant chunked == ChunkedBy(Values(hs[..i], "transfer-encoding"))
      invariant close == CloseBy(Values(hs[..i], "connection"), !line.http11)
    {
      LengthStep(hs, i);
      ChunkedStep(hs, i);
      CloseStep(hs, i, !line.http11);
      var name, value := Lower(hs[i].name), hs[i].value;
      if name == "content-length" {
        contentLength := ParseLength(value);
      } else if name == "transfer-encoding" {
        if ValidUtf8(value) {
          chunked := LastIsChunked(value);
        }
      } else if name == "connection" {
        if ValidUtf8(value) {
          close := ApplyConnection(value, close);
        }
      }
    }
    assert hs[..|hs|] == hs;
    var bodyless := Bodyless(requestMethod, line.status);
    r := ResponseHead(len, line.status, ResponseBody(bodyless, chunked, contentLength), close);
  }

  method ParseResponse(buf: string, requestMethod: string) returns (r: Parsed<ResponseHead>)
    ensures r == ResponseOf(buf, requestMethod)
  {
    match ReadLines(buf) {
      case NeedMore =>
        r := Partial;
      case Ready(lines, len) =>
        if HeadersOf(lines).None? || ParseStatusLine(lines[0]).None? {
          return Invalid;
        }
        var head := ScanResponse(ParseStatusLine(lines[0]).value, HeadersOf(lines).value, len, requestMethod);
        r := Complete(head);
    }
  }

  // ----- lines read back -----------------------------------------------------

  ghost predicate CleanLine(l: string) {
    l != "" && '\r' !in l && '\n' !in l
  }

  ghost predicate Clean(ls: seq<string>) {
    forall i :: 0 <= i < |ls| ==> CleanLine(ls[i])
  }

  lemma UnlinesCons(l: string, ls: seq<string>)
    ensures Unlines([l] + ls) == l + CRLF + Unlines(ls)
  {
    assert ([l] + ls)[1..] == ls;
  }

  /** What was read is exactly the lines, a blank line, and nothing more. */
  lemma {:induction false} ReadLinesShape(buf: string)
    requires ReadLines(buf).Ready?
    ensures 2 <= ReadLines(buf).len <= |buf|
    ensures buf[..ReadLines(buf).len] == Unlines(ReadLines(buf).lines) + CRLF
    decreases |buf|
  {
    var i := FindCrlf(buf);
    if i == 0 {
      assert buf[..2] == "" + CRLF;
    } else {
      FirstLine(buf);
      var rest := buf[i + 2..];
      ReadLinesShape(rest);
      ShapeStep(buf, i, ReadLines(rest).lines, ReadLines(rest).len);
    }
  }

  lemma FirstLine(buf: string)
    requires ReadLines(buf).Ready? && FindCrlf(buf) > 0
    ensures var i := FindCrlf(buf);
            && i + 2 <= |buf| && ReadLines(buf[i + 2..]).Ready?
            && ReadLines(buf).lines == [buf[..i]] + ReadLines(buf[i + 2..]).lines
            && ReadLines(buf).len == i + 2 + ReadLines(buf[i + 2..]).len
  {
  }

  lemma ShapeStep(buf: string, i: nat, ls: seq<string>, n: nat)
    requires i + 2 + n <= |buf| && buf[i] == '\r' && buf[i + 1] == '\n'
    requires buf[i + 2..][..n] == Unlines(ls) + CRLF
    ensures buf[..i + 2 + n] == Unlines([buf[..i]] + ls) + CRLF
  {
    var l := buf[..i];
    UnlinesCons(l, ls);
    TakeLine(buf, i, n);
    assert l + CRLF + (Unlines(ls) + CRLF) == l + CRLF + Unlines(ls) + CRLF;
  }

  lemma TakeLine(buf: string, i: nat, n: nat)
    requires i + 2 + n <= |buf| && buf[i] == '\r' && buf[i + 1] == '\n'
    ensures buf[..i + 2 + n] == buf[..i] + CRLF + buf[i + 2..][..n]
  {
  }

  lemma {:induction false} FindCrlfExtend(s: string, more: string)
    requires FindCrlf(s) < |s|
    ensures FindCrlf(s + more) == FindCrlf(s)
  {
    if !(s[0] == '\r' && s[1] == '\n') {
      assert (s + more)[1..] == s[1..] + more;
      FindCrlfExtend(s[1..], more);
    }
  }

  /** Prefix stability: a complete head stays the same however the buffer grows. */
  lemma {:induction false} ReadLinesStable(buf: string, more: string)
    requires ReadLines(buf).Ready?
    ensures ReadLines(buf + more) == ReadLines(buf)
    decreases |buf|
  {
    var i := FindCrlf(buf);
    FindCrlfExtend(buf, more);
    if i > 0 {
      assert (buf + more)[i + 2..] == buf[i + 2..] + more;
      assert (buf + more)[..i] == buf[..i];
      ReadLinesStable(buf[i + 2..], more);
    }
  }

  /** What a parse decided on a prefix it decides on every extension. */
  lemma ParseStable(buf: string, more: string, requestMethod: string)
    ensures !RequestOf(buf).Partial? ==> RequestOf(buf + more) == RequestOf(buf)
    ensures !ResponseOf(buf, requestMethod).Partial? ==> ResponseOf(buf + more, requestMethod) == ResponseOf(buf, requestMethod)
  {
    if !RequestOf(buf).Partial? { RequestStable(buf, more); }
    if !ResponseOf(buf, requestMethod).Partial? { ResponseStable(buf, more, requestMethod); }
  }

  lemma RequestStable(buf: string, more: string)
    requires !RequestOf(buf).Partial?
    ensures RequestOf(buf + more) == RequestOf(buf)
  {
    ReadLinesStable(buf, more);
  }

  lemma ResponseStable(buf: string, more: string, requestMethod: string)
    requires !ResponseOf(buf, requestMethod).Partial?
    ensures ResponseOf(buf + more, requestMethod) == ResponseOf(buf, requestMethod)
  {
    ReadLinesStable(buf, more);
  }

  /** A complete head is decided by its own bytes alone. */
  lemma HeadAlone(buf: string)
    requires RequestOf(buf).Complete?
    ensures 0 < RequestOf(buf).head.headLen <= |buf|
    ensures RequestOf(buf[..RequestOf(buf).head.headLen]) == RequestOf(buf)
  {
    ReadLinesShape(buf);
    var n := ReadLines(buf).len;
    ReadLinesTake(buf);
  }

  lemma ResponseHeadAlone(buf: string, requestMethod: string)
    requires ResponseOf(buf, requestMethod).Complete?
    ensures 0 < ResponseOf(buf, requestMethod).head.headLen <= |buf|
    ensures ResponseOf(buf[..ResponseOf(buf, requestMethod).head.headLen], requestMethod) == ResponseOf(buf, requestMethod)
  {
    ReadLinesShape(buf);
    ReadLinesTake(buf);
  }

  lemma {:induction false} ReadLinesTake(buf: string)
    requires ReadLines(buf).Ready?
    ensures ReadLines(buf).len <= |buf|
    ensures ReadLines(buf[..ReadLines(buf).len]) == ReadLines(buf)
    decreases |buf|
  {
    ReadLinesShape(buf);
    var i, n := FindCrlf(buf), ReadLines(buf).len;
    FindCrlfTake(buf, n);
    if i > 0 {
      FirstLine(buf);
      var rest := buf[i + 2..];
      ReadLinesTake(rest);
      TakeTail(buf, i, n);
      assert ReadLines(buf[..n][i + 2..]) == ReadLines(rest);
      UnfoldLine(buf[..n], i);
    } else {
      NoLines(buf[..n]);
    }
  }

  lemma NoLines(s: string)
    requires s != "" && FindCrlf(s) == 0
    ensures ReadLines(s) == Ready([], 2)
  {
  }

  lemma TakeTail(buf: string, i: nat, n: nat)
    requires i + 2 <= n <= |buf|
    ensures buf[..n][i + 2..] == buf[i + 2..][..n - i - 2]
    ensures buf[..n][..i] == buf[..i]
  {
  }

  lemma {:induction false} FindCrlfTake(s: string, n: nat)
    requires FindCrlf(s) + 2 <= n <= |s|
    ensures FindCrlf(s[..n]) == FindCrlf(s)
  {
    if !(s[0] == '\r' && s[1] == '\n') {
      assert s[..n][1..] == s[1..][..n - 1];
      FindCrlfTake(s[1..], n - 1);
    }
  }

  lemma {:induction false} FindCrlfLine(l: string, rest: string)
    requires '\r' !in l
    ensures FindCrlf(l + CRLF + rest) == |l|
  {
    var s := l + CRLF + rest;
    if l != "" {
      assert l[0] in l;
      assert s[1..] == l[1..] + CRLF + rest;
      FindCrlfLine(l[1..], rest);
    }
  }

  /** Printing clean lines and a blank line reads back as those lines. */
  lemma {:induction false} ReadUnlines(ls: seq<string>, rest: string)
    requires Clean(ls)
    ensures ReadLines(Unlines(ls) + CRLF + rest) == Ready(ls, |Unlines(ls)| + 2)
  {
    if ls == [] {
      assert Unlines(ls) + CRLF + rest == "" + CRLF + rest;
      FindCrlfLine("", rest);
    } else {
      ReadUnlines(ls[1..], rest);
      ReadOneMore(ls[0], ls[1..], Unlines(ls[1..]), rest);
      assert [ls[0]] + ls[1..] == ls;
    }
  }

  lemma ReadOneMore(l: string, ls: seq<string>, text: string, rest: string)
    requires CleanLine(l) && ReadLines(text + CRLF + rest) == Ready(ls, |text| + 2)
    ensures ReadLines(l + CRLF + text + CRLF + rest) == Ready([l] + ls, |l + CRLF + text| + 2)
  {
    LineInFront(l, text + CRLF + rest);
    Regroup(l, text, rest);
  }

  lemma Regroup(l: string, u: string, rest: string)
    ensures l + CRLF + u + CRLF + rest == l + CRLF + (u + CRLF + rest)
  {
  }

  lemma LineInFront(l: string, tail: string)
    requires CleanLine(l) && ReadLines(tail).Ready?
    ensures ReadLines(l + CRLF + tail) == Ready([l] + ReadLines(tail).lines, |l| + 2 + ReadLines(tail).len)
  {
    FindCrlfLine(l, tail);
    CutLine(l, tail);
    UnfoldLine(l + CRLF + tail, |l|);
  }

  lemma CutLine(l: string, tail: string)
    ensures (l + CRLF + tail)[..|l|] == l && (l + CRLF + tail)[|l| + 2..] == tail
  {
  }

  lemma UnfoldLine(s: string, i: nat)
    requires FindCrlf(s) == i && 0 < i && i + 2 <= |s| && ReadLines(s[i + 2..]).Ready?
    ensures ReadLines(s) == Ready([s[..i]] + ReadLines(s[i + 2..]).lines, i + 2 + ReadLines(s[i + 2..]).len)
  {
  }
}
