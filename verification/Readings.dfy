/**
 * What a complete head means, said on its header values: when it is chunked, how
 * long its body is, and whether it asks to close the connection.
 */
module Readings {
  import opened Text
  import opened Http1
  import opened Http1Writer
  import opened Http1Framing

  // ----- numbers -------------------------------------------------------------------

  lemma DigitOf(d: int)
    requires 0 <= d < 10
    ensures |Decimal(d)| == 1 && IsDigit(Decimal(d)[0]) && Digit(Decimal(d)[0]) == d
  {
  }

  lemma {:induction false} DecimalDigits(n: nat)
    ensures Decimal(n) != "" && Digits(Decimal(n))
    ensures DigitsValue(Decimal(n)) == n
  {
    if n < 10 {
      DigitOf(n);
      assert Decimal(n)[..0] == "" && DigitsValue("") == 0;
    } else {
      DecimalDigits(n / 10);
      DigitOf(n % 10);
      AppendDigit(Decimal(n / 10), Decimal(n % 10));
    }
  }

  lemma AppendDigit(s: string, d: string)
    requires Digits(s) && |d| == 1 && IsDigit(d[0])
    ensures Digits(s + d) && DigitsValue(s + d) == 10 * DigitsValue(s) + Digit(d[0])
  {
    assert (s + d)[..|s + d| - 1] == s;
  }

  lemma DigitsAreText(s: string)
    requires s != "" && Digits(s)
    ensures ValidUtf8(s) && TrimText(s) == s && s[0] != '+'
  {
    AsciiIsUtf8(s);
    assert IsDigit(s[0]) && IsDigit(s[|s| - 1]);
    assert LeadingSpace(s) == 0;
    assert TrailingSpace(s) == 0;
  }

  /** The decimal text of a 64-bit number is read back as that number. */
  lemma DecimalReads(n: nat)
    requires n < 0x1_0000_0000_0000_0000
    ensures ParseLength(Decimal(n)) == Some(n)
  {
    DecimalDigits(n);
    DigitsAreText(Decimal(n));
  }

  function Zeros(k: nat): string {
    seq(k, _ => '0')
  }

  function Padded(k: nat, n: nat): string {
    Zeros(k) + Decimal(n)
  }

  /** `t` is a number as the code reads it: an optional plus, any leading zeros, its decimal text. */
  ghost predicate Writes(t: string, n: nat) {
    exists k: nat :: t == Padded(k, n) || t == "+" + Padded(k, n)
  }

  lemma {:induction false} ZerosValue(k: nat, s: string)
    requires Digits(s)
    ensures Digits(Zeros(k) + s) && DigitsValue(Zeros(k) + s) == DigitsValue(s)
    decreases |s|
  {
    if s == "" {
      OnlyZeros(k);
      assert Zeros(k) + s == Zeros(k);
    } else {
      var e := |s| - 1;
      ZerosValue(k, s[..e]);
      assert (Zeros(k) + s)[..|Zeros(k) + s| - 1] == Zeros(k) + s[..e];
    }
  }

  lemma {:induction false} OnlyZeros(k: nat)
    ensures Digits(Zeros(k)) && DigitsValue(Zeros(k)) == 0
  {
    if k > 0 {
      OnlyZeros(k - 1);
      assert Zeros(k)[..k - 1] == Zeros(k - 1);
    }
  }

  /** Digits are leading zeros and the decimal text of their value. */
  lemma {:induction false} DigitsAre(d: string) returns (k: nat)
    requires d != "" && Digits(d)
    ensures d == Zeros(k) + Decimal(DigitsValue(d))
    decreases |d|
  {
    var e := |d| - 1;
    var c := d[e];
    CharOfDigit(c);
    if e == 0 {
      k := 0;
      assert d[..0] == "" && d == [c];
      assert Zeros(0) + [c] == [c];
    } else {
      var j := DigitsAre(d[..e]);
      var v := DigitsValue(d[..e]);
      assert d == d[..e] + [c];
      if v == 0 {
        k := j + 1;
        assert Decimal(0) == "0" && Zeros(j) + "0" == Zeros(j + 1);
      } else {
        k := j;
        NextDigit(v, Digit(c));
        assert Zeros(j) + Decimal(v) + [c] == Zeros(j) + (Decimal(v) + [c]);
      }
    }
  }

  lemma CharOfDigit(c: char)
    requires IsDigit(c)
    ensures Decimal(Digit(c)) == [c]
  {
  }

  lemma NextDigit(v: nat, d: nat)
    requires v > 0 && d < 10
    ensures Decimal(10 * v + d) == Decimal(v) + Decimal(d)
  {
    assert (10 * v + d) / 10 == v && (10 * v + d) % 10 == d;
  }

  lemma NoPlus(d: string)
    requires Digits(d)
    ensures d == "" || d[0] != '+'
  {
    if d != "" { assert IsDigit(d[0]); }
  }

  /** Text read as a number writes that number, and fits 64 bits. */
  lemma ReadWrites(t: string, n: nat)
    requires ParseU64(t) == Some(n)
    ensures Writes(t, n) && n < 0x1_0000_0000_0000_0000
  {
    var digits := if t != "" && t[0] == '+' then t[1..] else t;
    var k := DigitsAre(digits);
    assert digits == Padded(k, n);
    if digits != t {
      assert t == "+" + digits;
    }
  }

  lemma DigitsRead(d: string)
    requires d != "" && Digits(d) && DigitsValue(d) < 0x1_0000_0000_0000_0000
    ensures ParseU64(d) == ParseU64("+" + d) == Some(DigitsValue(d))
  {
    NoPlus(d);
    assert ("+" + d)[1..] == d;
  }

  lemma PaddedRead(k: nat, n: nat)
    requires n < 0x1_0000_0000_0000_0000
    ensures ParseU64(Padded(k, n)) == ParseU64("+" + Padded(k, n)) == Some(n)
  {
    DecimalDigits(n);
    ZerosValue(k, Decimal(n));
    DigitsRead(Padded(k, n));
  }

  /** Text that writes a 64-bit number is read as that number. */
  lemma WriteReads(t: string, n: nat)
    requires Writes(t, n) && n < 0x1_0000_0000_0000_0000
    ensures ParseU64(t) == Some(n)
  {
    var k: nat :| t == Padded(k, n) || t == "+" + Padded(k, n);
    PaddedRead(k, n);
  }

  /** Exactly what counts as a length: UTF-8 text that, trimmed, writes a 64-bit number. */
  lemma LengthIs(v: string, n: nat)
    ensures ParseLength(v) == Some(n) <==> ValidUtf8(v) && Writes(TrimText(v), n) && n < 0x1_0000_0000_0000_0000
  {
    var t := TrimText(v);
    if ParseU64(t) == Some(n) { ReadWrites(t, n); }
    if Writes(t, n) && n < 0x1_0000_0000_0000_0000 { WriteReads(t, n); }
  }

  // ----- transfer codings ------------------------------------------------------------

  /** `last` is what follows the last comma of `v`. */
  ghost predicate IsLastPart(v: string, last: string) {
    ',' !in last && (v == last || exists front :: v == front + "," + last)
  }

  ghost predicate NamesChunked(v: string) {
    exists last :: IsLastPart(v, last) && Lower(TrimText(last)) == "chunked"
  }

  /** The last readable value names chunked as its last coding. */
  ghost predicate EndsInChunked(vals: seq<string>) {
    exists k: nat :: LastReadable(vals, k) && NamesChunked(vals[k])
  }

  ghost predicate LastReadable(vals: seq<string>, k: nat) {
    k < |vals| && ValidUtf8(vals[k]) && forall j :: k < j < |vals| ==> !ValidUtf8(vals[j])
  }

  lemma PartBehind(v: string, i: nat, last: string)
    requires i < |v| && v[i] == ',' && IsLastPart(v[i + 1..], last)
    ensures IsLastPart(v, last)
  {
    var rest := v[i + 1..];
    assert v == v[..i] + "," + rest;
    if rest != last {
      var front :| rest == front + "," + last;
      assert v == (v[..i] + "," + front) + "," + last;
    }
  }

  lemma SplitLast(v: string, i: nat)
    requires i == IndexOf(v, ',') < |v|
    ensures Split(v, ',')[|Split(v, ',')| - 1] == Split(v[i + 1..], ',')[|Split(v[i + 1..], ',')| - 1]
  {
  }

  lemma {:induction false} LastPart(v: string)
    ensures IsLastPart(v, Split(v, ',')[|Split(v, ',')| - 1])
    decreases |v|
  {
    var i := IndexOf(v, ',');
    if i == |v| {
      assert ',' !in v;
      assert Split(v, ',') == [v];
    } else {
      var rest := v[i + 1..];
      LastPart(rest);
      var parts := Split(rest, ',');
      SplitLast(v, i);
      PartBehind(v, i, parts[|parts| - 1]);
    }
  }

  lemma PartShape(v: string, a: string)
    requires IsLastPart(v, a)
    ensures |a| <= |v| && v[|v| - |a|..] == a
    ensures |a| < |v| ==> v[|v| - |a| - 1] == ','
    ensures forall k :: |v| - |a| <= k < |v| ==> v[k] != ','
  {
    if v != a {
      var front :| v == front + "," + a;
      assert v[|front|] == ',';
    }
    forall k | |v| - |a| <= k < |v| ensures v[k] != ',' {
      assert v[|v| - |a|..][k - (|v| - |a|)] == v[k];
      assert v[k] in a;
    }
  }

  lemma OneLastPart(v: string, a: string, b: string)
    requires IsLastPart(v, a) && IsLastPart(v, b)
    ensures a == b
  {
    PartShape(v, a);
    PartShape(v, b);
  }

  lemma ChunkedValue(v: string)
    ensures LastIsChunked(v) <==> NamesChunked(v)
  {
    LastPart(v);
    var last := Split(v, ',')[|Split(v, ',')| - 1];
    if NamesChunked(v) {
      var l :| IsLastPart(v, l) && Lower(TrimText(l)) == "chunked";
      OneLastPart(v, l, last);
    }
  }

  lemma {:induction false} ChunkedIs(vals: seq<string>)
    ensures ChunkedBy(vals) <==> EndsInChunked(vals)
  {
    if vals != [] {
      var n := |vals| - 1;
      var front := vals[..n];
      ChunkedIs(front);
      if ValidUtf8(vals[n]) {
        ChunkedValue(vals[n]);
        assert LastReadable(vals, n);
      } else {
        UnreadableLast(vals, n);
      }
    }
  }

  lemma UnreadableLast(vals: seq<string>, n: nat)
    requires |vals| == n + 1 && !ValidUtf8(vals[n])
    ensures EndsInChunked(vals[..n]) <==> EndsInChunked(vals)
  {
    var front := vals[..n];
    forall k: nat ensures LastReadable(front, k) <==> LastReadable(vals, k) {
      if LastReadable(front, k) {
        forall j | k < j < |vals| ensures !ValidUtf8(vals[j]) { if j < n { assert vals[j] == front[j]; } }
      }
      if LastReadable(vals, k) {
        assert k != n;
        forall j | k < j < |front| ensures !ValidUtf8(front[j]) { assert vals[j] == front[j]; }
      }
    }
    if EndsInChunked(front) {
      var k: nat :| LastReadable(front, k) && NamesChunked(front[k]);
      assert LastReadable(vals, k) && vals[k] == front[k];
    }
    if EndsInChunked(vals) {
      var k: nat :| LastReadable(vals, k) && NamesChunked(vals[k]);
      assert LastReadable(front, k) && vals[k] == front[k];
    }
  }

  // ----- how long the body is -----------------------------------------------------------

  /** The number of the last Content-Length value. */
  ghost predicate Announces(vals: seq<string>, n: nat) {
    vals != [] && n < 0x1_0000_0000_0000_0000 && vals[|vals| - 1] == Decimal(n)
  }

  /** What framing makes of the values of a request. */
  ghost predicate FramesRequest(codings: seq<string>, lengths: seq<string>, body: BodyLength) {
    if EndsInChunked(codings) then body == Chunked
    else
      && (lengths == [] ==> body == Empty)
      && (forall n: nat :: Announces(lengths, n) ==> body == if n == 0 then Empty else Fixed(n))
      && !body.Chunked? && !body.UntilClose?
  }

  /**
   * The body of a complete request: chunked if its last readable Transfer-Encoding
   * ends in chunked, whatever Content-Length says; otherwise as long as the last
   * Content-Length, or empty.
   */
  lemma RequestBodyIs(buf: string)
    requires RequestOf(buf).Complete? && RequestOf(buf).head.headLen <= |buf|
    ensures var lines := BlockLines(buf, RequestOf(buf).head.headLen);
            && ParseHeaders(lines).Some?
            && var hs := ParseHeaders(lines).value;
               FramesRequest(Values(hs, "transfer-encoding"), Values(hs, "content-length"), RequestOf(buf).head.body)
  {
    RequestFields(buf);
    var hs := ParseHeaders(BlockLines(buf, RequestOf(buf).head.headLen)).value;
    BodyOfValues(Values(hs, "transfer-encoding"), Values(hs, "content-length"), RequestOf(buf).head.body);
  }

  lemma BodyOfValues(codings: seq<string>, lengths: seq<string>, body: BodyLength)
    requires RequestLength(lengths).Some? && body == RequestBody(ChunkedBy(codings), RequestLength(lengths).value)
    ensures FramesRequest(codings, lengths, body)
  {
    ChunkedIs(codings);
    forall n: nat | Announces(lengths, n) ensures RequestLength(lengths).value == Some(n) { DecimalReads(n); }
  }

  /** Responses that never have a body: to HEAD, 204, 304 and 1xx. */
  ghost predicate NeverHasBody(requestMethod: string, status: nat) {
    Lower(requestMethod) == "head" || status == 204 || status == 304 || (status >= 100 && status <= 199)
  }

  ghost predicate FramesResponse(requestMethod: string, status: nat, codings: seq<string>, lengths: seq<string>, body: BodyLength) {
    if NeverHasBody(requestMethod, status) then body == Empty
    else if EndsInChunked(codings) then body == Chunked
    else
      && (lengths == [] ==> body == UntilClose)
      && (forall n: nat :: Announces(lengths, n) ==> body == if n == 0 then Empty else Fixed(n))
      && !body.Chunked?
  }

  lemma ResponseFields(buf: string, requestMethod: string)
    requires ResponseOf(buf, requestMethod).Complete? && ResponseOf(buf, requestMethod).head.headLen <= |buf|
    ensures var head := ResponseOf(buf, requestMethod).head;
            var lines := BlockLines(buf, head.headLen);
            && ParseHeaders(lines).Some?
            && var hs := ParseHeaders(lines).value;
               head.body == ResponseBody(Bodyless(requestMethod, head.status), ChunkedBy(Values(hs, "transfer-encoding")),
                                         ResponseLength(Values(hs, "content-length")))
  {
    CompleteResponseLines(buf, requestMethod);
  }

  /** The body of a complete response, by the same rules, or up to the end of the connection. */
  lemma ResponseBodyIs(buf: string, requestMethod: string)
    requires ResponseOf(buf, requestMethod).Complete? && ResponseOf(buf, requestMethod).head.headLen <= |buf|
    ensures var head := ResponseOf(buf, requestMethod).head;
            var lines := BlockLines(buf, head.headLen);
            && ParseHeaders(lines).Some?
            && var hs := ParseHeaders(lines).value;
               FramesResponse(requestMethod, head.status, Values(hs, "transfer-encoding"), Values(hs, "content-length"), head.body)
  {
    ResponseFields(buf, requestMethod);
    var head := ResponseOf(buf, requestMethod).head;
    var hs := ParseHeaders(BlockLines(buf, head.headLen)).value;
    ReplyOfValues(requestMethod, head.status, Values(hs, "transfer-encoding"), Values(hs, "content-length"), head.body);
  }

  lemma ReplyOfValues(requestMethod: string, status: nat, codings: seq<string>, lengths: seq<string>, body: BodyLength)
    requires body == ResponseBody(Bodyless(requestMethod, status), ChunkedBy(codings), ResponseLength(lengths))
    ensures FramesResponse(requestMethod, status, codings, lengths, body)
  {
    ChunkedIs(codings);
    forall n: nat | Announces(lengths, n) ensures ResponseLength(lengths) == Some(n) { DecimalReads(n); }
  }

  // ----- whether to close ----------------------------------------------------------------

  ghost predicate SaysClose(token: string) {
    Lower(TrimText(token)) == "close"
  }

  ghost predicate SaysKeepAlive(token: string) {
    Lower(TrimText(token)) == "keep-alive"
  }

  /** Token `k` is the last that says either. */
  ghost predicate LastSaid(tokens: seq<string>, k: nat) {
    k < |tokens| && (SaysClose(tokens[k]) || SaysKeepAlive(tokens[k]))
    && forall j :: k < j < |tokens| ==> !SaysClose(tokens[j]) && !SaysKeepAlive(tokens[j])
  }

  /** The comma-separated tokens of all readable values. */
  ghost function ReadableTokens(vals: seq<string>): seq<string> {
    if vals == [] then []
    else ReadableTokens(vals[..|vals| - 1]) + (if ValidUtf8(vals[|vals| - 1]) then Split(vals[|vals| - 1], ',') else [])
  }

  /** The last word on closing, or the default where nothing was said. */
  ghost predicate Decided(tokens: seq<string>, default: bool, close: bool) {
    && (forall k: nat :: LastSaid(tokens, k) ==> (close <==> SaysClose(tokens[k])))
    && ((forall k :: 0 <= k < |tokens| ==> !SaysClose(tokens[k]) && !SaysKeepAlive(tokens[k])) ==> close == default)
  }

  lemma NotBoth(token: string)
    ensures !(SaysClose(token) && SaysKeepAlive(token))
  {
    assert |"close"| == 5 && |"keep-alive"| == 10;
  }

  lemma {:induction false} TokensDecide(before: seq<string>, tokens: seq<string>, default: bool, close: bool)
    requires Decided(before, default, close)
    ensures Decided(before + tokens, default, ApplyTokens(tokens, close))
    decreases |tokens|
  {
    if tokens == [] {
      assert before + tokens == before;
    } else {
      var t := tokens[0];
      var next := if SaysClose(t) then true else if SaysKeepAlive(t) then false else close;
      OneMoreToken(before, t, default, close, next);
      TokensDecide(before + [t], tokens[1..], default, next);
      ApplyFirst(tokens, close, next);
      FirstMoved(before, tokens);
      SameDecision((before + [t]) + tokens[1..], before + tokens, default, ApplyTokens(tokens[1..], next), ApplyTokens(tokens, close));
    }
  }

  lemma FirstMoved(before: seq<string>, tokens: seq<string>)
    requires tokens != []
    ensures (before + [tokens[0]]) + tokens[1..] == before + tokens
  {
  }

  lemma SameDecision(a: seq<string>, b: seq<string>, default: bool, close: bool, same: bool)
    requires Decided(a, default, close) && a == b && close == same
    ensures Decided(b, default, same)
  {
  }

  lemma ApplyFirst(tokens: seq<string>, close: bool, next: bool)
    requires tokens != []
    requires next == if SaysClose(tokens[0]) then true else if SaysKeepAlive(tokens[0]) then false else close
    ensures ApplyTokens(tokens, close) == ApplyTokens(tokens[1..], next)
  {
  }

  lemma OneMoreToken(before: seq<string>, t: string, default: bool, close: bool, next: bool)
    requires Decided(before, default, close)
    requires next == if SaysClose(t) then true else if SaysKeepAlive(t) then false else close
    ensures Decided(before + [t], default, next)
  {
    var all := before + [t];
    NotBoth(t);
    forall k: nat | LastSaid(all, k) ensures next <==> SaysClose(all[k]) {
      if k < |before| {
        assert !SaysClose(all[|before|]) && !SaysKeepAlive(all[|before|]);
        assert forall j :: k < j < |before| ==> all[j] == before[j];
        assert LastSaid(before, k);
      }
    }
    if forall k :: 0 <= k < |all| ==> !SaysClose(all[k]) && !SaysKeepAlive(all[k]) {
      assert all[|before|] == t;
      forall k | 0 <= k < |before| ensures !SaysClose(before[k]) && !SaysKeepAlive(before[k]) { assert all[k] == before[k]; }
    }
  }

  lemma {:induction false} CloseIs(vals: seq<string>, default: bool)
    ensures Decided(ReadableTokens(vals), default, CloseBy(vals, default))
  {
    if vals != [] {
      var n := |vals| - 1;
      CloseIs(vals[..n], default);
      if ValidUtf8(vals[n]) {
        TokensDecide(ReadableTokens(vals[..n]), Split(vals[n], ','), default, CloseBy(vals[..n], default));
      } else {
        assert ReadableTokens(vals[..n]) + [] == ReadableTokens(vals[..n]);
      }
    }
  }

  /** The version a request line ends in. */
  lemma VersionOf(line: string)
    requires ParseRequestLine(line).Some?
    ensures ParseRequestLine(line).value.http11 <==> EndsWith(line, "HTTP/1.1")
    ensures !ParseRequestLine(line).value.http11 <==> EndsWith(line, "HTTP/1.0")
  {
    var a := IndexOf(line, ' ');
    var rest := line[a + 1..];
    var b := IndexOf(rest, ' ');
    VersionBehind(line, a, b);
    assert "HTTP/1.1"[7] == '1' && "HTTP/1.0"[7] == '0';
  }

  lemma VersionBehind(line: string, a: nat, b: nat)
    requires a + 1 + b + 1 <= |line| && |line[a + 1..][b + 1..]| == 8
    ensures line[|line| - 8..] == line[a + 1..][b + 1..]
  {
  }

  /**
   * A complete request asks to close by its last disposition token, and without one
   * by being HTTP/1.0.
   */
  lemma RequestCloseIs(buf: string)
    requires RequestOf(buf).Complete? && RequestOf(buf).head.headLen <= |buf|
    ensures ReadLines(buf).Ready? && ReadLines(buf).lines != []
    ensures var lines := BlockLines(buf, RequestOf(buf).head.headLen);
            && ParseHeaders(lines).Some?
            && Decided(ReadableTokens(Values(ParseHeaders(lines).value, "connection")),
                       EndsWith(ReadLines(buf).lines[0], "HTTP/1.0"), RequestOf(buf).head.closeRequested)
  {
    CompleteRequestLines(buf);
    VersionOf(ReadLines(buf).lines[0]);
    CloseIs(Values(ParseHeaders(ReadLines(buf).lines[1..]).value, "connection"), EndsWith(ReadLines(buf).lines[0], "HTTP/1.0"));
  }

  /** The same for a response. */
  lemma ResponseCloseIs(buf: string, requestMethod: string)
    requires ResponseOf(buf, requestMethod).Complete? && ResponseOf(buf, requestMethod).head.headLen <= |buf|
    ensures ReadLines(buf).Ready? && ReadLines(buf).lines != []
    ensures var lines := BlockLines(buf, ResponseOf(buf, requestMethod).head.headLen);
            && ParseHeaders(lines).Some?
            && Decided(ReadableTokens(Values(ParseHeaders(lines).value, "connection")),
                       "HTTP/1.0 " <= ReadLines(buf).lines[0], ResponseOf(buf, requestMethod).head.closeRequested)
  {
    ResponseClose(buf, requestMethod);
    var vals := Values(ParseHeaders(BlockLines(buf, ResponseOf(buf, requestMethod).head.headLen)).value, "connection");
    StatusVersion(ReadLines(buf).lines[0]);
    CloseIs(vals, !ParseStatusLine(ReadLines(buf).lines[0]).value.http11);
  }

  lemma ResponseClose(buf: string, requestMethod: string)
    requires ResponseOf(buf, requestMethod).Complete? && ResponseOf(buf, requestMethod).head.headLen <= |buf|
    ensures ReadLines(buf).Ready? && ReadLines(buf).lines != [] && ParseStatusLine(ReadLines(buf).lines[0]).Some?
    ensures var lines := BlockLines(buf, ResponseOf(buf, requestMethod).head.headLen);
            && ParseHeaders(lines).Some?
            && ResponseOf(buf, requestMethod).head.closeRequested
               == CloseBy(Values(ParseHeaders(lines).value, "connection"), !ParseStatusLine(ReadLines(buf).lines[0]).value.http11)
  {
    CompleteResponseLines(buf, requestMethod);
    ResponseShape(buf, requestMethod);
    CloseField(ParseStatusLine(ReadLines(buf).lines[0]).value, ParseHeaders(ReadLines(buf).lines[1..]).value, ReadLines(buf).len, requestMethod);
  }

  lemma ResponseShape(buf: string, requestMethod: string)
    requires ResponseOf(buf, requestMethod).Complete?
    ensures ReadLines(buf).Ready? && ReadLines(buf).lines != []
    ensures var lines := ReadLines(buf).lines;
            && ParseStatusLine(lines[0]).Some? && ParseHeaders(lines[1..]).Some?
            && ResponseOf(buf, requestMethod).head
               == ResponseFrom(ParseStatusLine(lines[0]).value, ParseHeaders(lines[1..]).value, ReadLines(buf).len, requestMethod)
  {
  }

  lemma CloseField(line: StatusLine, hs: seq<Header>, len: nat, requestMethod: string)
    ensures ResponseFrom(line, hs, len, requestMethod).closeRequested == CloseBy(Values(hs, "connection"), !line.http11)
  {
  }

  lemma StatusVersion(line: string)
    requires ParseStatusLine(line).Some?
    ensures !ParseStatusLine(line).value.http11 <==> "HTTP/1.0 " <= line
  {
    assert "HTTP/1.1 "[7] == '1' && "HTTP/1.0 "[7] == '0';
    assert line[..9][7] == line[7];
  }

  // ----- limits ------------------------------------------------------------------------------

  /** A head of well-formed lines is a request exactly up to 96 headers and with readable lengths. */
  lemma HeaderLimit(start: string, lines: seq<string>)
    requires ParseRequestLine(start).Some? && ParseHeaders(lines).Some?
    ensures var out := Unlines([start] + lines) + CRLF;
            && !RequestOf(out).Partial?
            && (RequestOf(out).Complete? <==>
                  |lines| <= 96 && RequestLength(Values(ParseHeaders(lines).value, "content-length")).Some?)
  {
    RequestLineClean(start);
    PrintedLines(start, lines);
    var out := Unlines([start] + lines) + CRLF;
    if |lines| <= 96 {
      HeadersOfCons(start, lines);
      PrintedRequest(start, lines);
      LengthDecides(ParseRequestLine(start).value, ParseHeaders(lines).value, |out|);
    } else {
      TooManyHeaders(out, start, lines);
    }
  }

  lemma LengthDecides(line: RequestLine, hs: seq<Header>, len: nat)
    ensures !RequestFrom(line, hs, len).Partial?
    ensures RequestFrom(line, hs, len).Complete? <==> RequestLength(Values(hs, "content-length")).Some?
  {
  }

  lemma TooManyHeaders(out: string, start: string, lines: seq<string>)
    requires ReadLines(out).Ready? && ReadLines(out).lines == [start] + lines && |lines| > 96
    ensures RequestOf(out).Invalid?
  {
    assert HeadersOf([start] + lines).None?;
  }
}
