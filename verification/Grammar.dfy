/** The lines of a head as languages: exactly which texts parse, and as what. */
module Grammar {
  import opened Text
  import opened Http1
  import opened Http1Framing

  /** The characters of a token (section 5.6.2 of RFC 9110). */
  predicate TokenByte(c: char) {
    'a' <= c <= 'z' || 'A' <= c <= 'Z' || '0' <= c <= '9' || c in "!#$%&'*+-.^_`|~"
  }

  ghost predicate TokenText(s: string) {
    s != "" && forall i :: 0 <= i < |s| ==> TokenByte(s[i])
  }

  /** No blanks and no control characters; bytes above 127 are allowed. */
  ghost predicate VisibleText(s: string) {
    s != "" && forall i :: 0 <= i < |s| ==> s[i] as int > 32 && s[i] as int != 127
  }

  ghost predicate FieldBytes(s: string) {
    forall i :: 0 <= i < |s| ==> s[i] as int == 9 || (s[i] as int >= 32 && s[i] as int != 127)
  }

  lemma TokenTextIs(s: string)
    ensures TokenText(s) <==> s != "" && Tokens(s)
  {
    if Tokens(s) { assert forall i :: 0 <= i < |s| ==> IsToken(s[i]); }
  }

  lemma VisibleTextIs(s: string)
    ensures VisibleText(s) <==> s != "" && TargetText(s)
  {
    if TargetText(s) { assert forall i :: 0 <= i < |s| ==> IsTargetChar(s[i]); }
  }

  lemma FieldBytesAre(s: string)
    ensures FieldBytes(s) <==> FieldText(s)
  {
    if FieldText(s) { assert forall i :: 0 <= i < |s| ==> IsFieldChar(s[i]); }
  }

  function Version(http11: bool): string {
    if http11 then "HTTP/1.1" else "HTTP/1.0"
  }

  // ----- request lines ---------------------------------------------------------------

  lemma VersionIs(v: string, http11: bool)
    ensures (v == "HTTP/1.1" || v == "HTTP/1.0") && http11 == (v == "HTTP/1.1") <==> v == Version(http11)
  {
    assert "HTTP/1.1"[7] == '1' && "HTTP/1.0"[7] == '0';
  }

  lemma WordsWritten(m: string, t: string, v: string)
    ensures m + " " + t + " " + v == m + " " + (t + " " + v)
  {
  }

  lemma CutAt(s: string, i: nat)
    requires i < |s| && s[i] == ' '
    ensures s == s[..i] + " " + s[i + 1..]
  {
  }

  lemma ReadRequestLine(line: string, r: RequestLine)
    requires ParseRequestLine(line) == Some(r)
    ensures r.method_ != "" && Tokens(r.method_) && r.target != "" && TargetText(r.target)
    ensures line == r.method_ + " " + r.target + " " + Version(r.http11)
  {
    var a := IndexOf(line, ' ');
    var rest := line[a + 1..];
    var b := IndexOf(rest, ' ');
    var v := rest[b + 1..];
    VersionIs(v, r.http11);
    CutAt(line, a);
    CutAt(rest, b);
    WordsWritten(r.method_, r.target, v);
  }

  lemma NoSpaceIn(s: string)
    requires Tokens(s) || TargetText(s)
    ensures forall i :: 0 <= i < |s| ==> s[i] != ' '
  {
    forall i | 0 <= i < |s| ensures s[i] != ' ' {
      assert IsToken(s[i]) || IsTargetChar(s[i]);
    }
  }

  lemma WriteRequestLine(m: string, t: string, http11: bool)
    requires m != "" && Tokens(m) && t != "" && TargetText(t)
    ensures ParseRequestLine(m + " " + t + " " + Version(http11)) == Some(RequestLine(m, t, http11))
  {
    NoSpaceIn(m);
    NoSpaceIn(t);
    var v := Version(http11);
    VersionIs(v, http11);
    SpaceBetween(m, t + " " + v);
    SpaceBetween(t, v);
    WordsWritten(m, t, v);
  }

  /** A request line is a method token, a visible target and one of two versions, with single spaces. */
  lemma RequestLineIs(line: string, m: string, t: string, http11: bool)
    ensures ParseRequestLine(line) == Some(RequestLine(m, t, http11)) <==>
            TokenText(m) && VisibleText(t) && line == m + " " + t + " " + Version(http11)
  {
    TokenTextIs(m);
    VisibleTextIs(t);
    if ParseRequestLine(line) == Some(RequestLine(m, t, http11)) { ReadRequestLine(line, RequestLine(m, t, http11)); }
    if m != "" && Tokens(m) && t != "" && TargetText(t) { WriteRequestLine(m, t, http11); }
  }

  // ----- header lines ----------------------------------------------------------------

  ghost predicate Blanks(s: string) {
    forall i :: 0 <= i < |s| ==> s[i] == ' ' || s[i] == '\t'
  }

  ghost predicate Unpadded(v: string) {
    v != "" ==> v[0] != ' ' && v[0] != '\t' && v[|v| - 1] != ' ' && v[|v| - 1] != '\t'
  }

  /** `raw` is `v` between blanks. */
  ghost predicate Pads(raw: string, v: string) {
    Unpadded(v) && exists front, back :: Blanks(front) && Blanks(back) && raw == front + v + back
  }

  lemma {:induction false} DropFront(front: string, s: string)
    requires Blanks(front) && (s == "" || !IsOws(s[0]))
    ensures DropLeading(front + s, Ows) == s
  {
    if front == "" {
      assert front + s == s;
    } else {
      DropFront(front[1..], s);
      assert (front + s)[1..] == front[1..] + s;
    }
  }

  lemma {:induction false} DropBack(s: string, back: string)
    requires Blanks(back) && (s == "" || !IsOws(s[|s| - 1]))
    ensures DropTrailing(s + back, Ows) == s
    decreases |back|
  {
    if back == "" {
      assert s + back == s;
    } else {
      var e := |back| - 1;
      DropBack(s, back[..e]);
      assert (s + back)[..|s + back| - 1] == s + back[..e];
    }
  }

  lemma TrimPadded(front: string, v: string, back: string)
    requires Blanks(front) && Blanks(back) && Unpadded(v)
    ensures Trim(front + v + back, Ows) == v
  {
    if v == "" {
      assert front + v + back == (front + back) + "";
      DropFront(front + back, "");
    } else {
      assert front + v + back == front + (v + back);
      DropFront(front, v + back);
      DropBack(v, back);
    }
  }

  lemma FrontBlanks(raw: string)
    ensures exists front :: Blanks(front) && raw == front + DropLeading(raw, Ows)
  {
    DropLeadingShape(raw, Ows);
    var mid := DropLeading(raw, Ows);
    var front := raw[..|raw| - |mid|];
    forall i | 0 <= i < |front| ensures front[i] == ' ' || front[i] == '\t' { assert IsBlank(raw[i], Ows); }
    assert raw == front + mid;
  }

  lemma BackBlanks(mid: string)
    ensures exists back :: Blanks(back) && mid == DropTrailing(mid, Ows) + back
  {
    DropTrailingShape(mid, Ows);
    var v := DropTrailing(mid, Ows);
    var back := mid[|v|..];
    forall i | 0 <= i < |back| ensures back[i] == ' ' || back[i] == '\t' { assert IsBlank(mid[|v| + i], Ows); }
    assert mid == v + back;
  }

  lemma TrimUnpads(raw: string)
    ensures Unpadded(Trim(raw, Ows))
  {
    var mid := DropLeading(raw, Ows);
    DropLeadingShape(raw, Ows);
    DropTrailingShape(mid, Ows);
    var v := DropTrailing(mid, Ows);
    if v != "" { assert v[0] == mid[0] && !IsBlank(mid[0], Ows) && !IsBlank(v[|v| - 1], Ows); }
  }

  lemma TrimPads(raw: string)
    ensures Pads(raw, Trim(raw, Ows))
  {
    FrontBlanks(raw);
    var mid := DropLeading(raw, Ows);
    var front :| Blanks(front) && raw == front + mid;
    BackBlanks(mid);
    var v := DropTrailing(mid, Ows);
    var back :| Blanks(back) && mid == v + back;
    TrimUnpads(raw);
    assert raw == front + v + back;
  }

  /** Removing the blanks around a value is exactly that. */
  lemma TrimIs(raw: string, v: string)
    ensures Trim(raw, Ows) == v <==> Pads(raw, v)
  {
    TrimPads(raw);
    if Pads(raw, v) {
      var front, back :| Blanks(front) && Blanks(back) && raw == front + v + back;
      TrimPadded(front, v, back);
    }
  }

  lemma ReadHeaderLine(line: string, h: Header)
    requires ParseHeader(line) == Some(h)
    ensures TokenText(h.name)
    ensures exists raw :: line == h.name + ":" + raw && FieldBytes(raw) && Pads(raw, h.value)
  {
    var c := IndexOf(line, ':');
    var raw := line[c + 1..];
    TokenTextIs(h.name);
    FieldBytesAre(raw);
    TrimPads(raw);
    assert line == h.name + ":" + raw;
  }

  lemma WriteHeaderLine(name: string, raw: string, v: string)
    requires TokenText(name) && FieldBytes(raw) && Pads(raw, v)
    ensures ParseHeader(name + ":" + raw) == Some(Header(name, v))
  {
    TokenTextIs(name);
    FieldBytesAre(raw);
    TrimIs(raw, v);
    ColonAfterName(name, raw);
    HeaderFrom(name + ":" + raw, |name|);
  }

  /** A header line is a token, a colon and a field text; its value is that text without the blanks around it. */
  lemma HeaderLineIs(line: string, name: string, v: string)
    ensures ParseHeader(line) == Some(Header(name, v)) <==>
            TokenText(name) && exists raw :: line == name + ":" + raw && FieldBytes(raw) && Pads(raw, v)
  {
    if ParseHeader(line) == Some(Header(name, v)) { ReadHeaderLine(line, Header(name, v)); }
    if TokenText(name) && exists raw :: line == name + ":" + raw && FieldBytes(raw) && Pads(raw, v) {
      var raw :| line == name + ":" + raw && FieldBytes(raw) && Pads(raw, v);
      WriteHeaderLine(name, raw, v);
    }
  }

  // ----- status lines ----------------------------------------------------------------

  function DigitChar(d: nat): char
    requires d < 10
  {
    ('0' as int + d) as char
  }

  function ThreeDigits(status: nat): string
    requires status < 1000
  {
    [DigitChar(status / 100), DigitChar(status / 10 % 10), DigitChar(status % 10)]
  }

  /** What may stand behind the status: nothing, or a space and any field text. */
  ghost predicate Reason(s: string) {
    s == "" || (s[0] == ' ' && FieldBytes(s))
  }

  lemma DigitsOf(status: nat, a: nat, b: nat, c: nat)
    requires a < 10 && b < 10 && c < 10 && status == 100 * a + 10 * b + c
    ensures status < 1000 && status / 100 == a && status / 10 % 10 == b && status % 10 == c
  {
    assert status / 10 == 10 * a + b;
  }

  lemma ReadStatusLine(line: string, s: StatusLine)
    requires ParseStatusLine(line) == Some(s)
    ensures s.status < 1000 && Reason(line[12..])
    ensures line == Version(s.http11) + " " + ThreeDigits(s.status) + line[12..]
  {
    DigitsOf(s.status, Digit(line[9]), Digit(line[10]), Digit(line[11]));
    FieldBytesAre(line);
    var start := Version(s.http11) + " ";
    assert "HTTP/1.1" + " " == "HTTP/1.1 " && "HTTP/1.0" + " " == "HTTP/1.0 ";
    assert line[..9] == start;
    assert line[9..12] == ThreeDigits(s.status);
    assert line == line[..9] + line[9..12] + line[12..];
  }

  lemma StatusLineText(http11: bool, status: nat, reason: string)
    requires status < 1000 && Reason(reason)
    ensures FieldText(Version(http11) + " " + ThreeDigits(status) + reason)
  {
    var line := Version(http11) + " " + ThreeDigits(status) + reason;
    assert FieldBytes(Version(http11) + " " + ThreeDigits(status));
    assert FieldBytes(reason);
    FieldBytesAre(line);
  }

  lemma WriteStatusLine(http11: bool, status: nat, reason: string)
    requires status < 1000 && Reason(reason)
    ensures ParseStatusLine(Version(http11) + " " + ThreeDigits(status) + reason) == Some(StatusLine(status, http11))
  {
    var line := Version(http11) + " " + ThreeDigits(status) + reason;
    StatusLineText(http11, status, reason);
    assert "HTTP/1.1" + " " == "HTTP/1.1 " && "HTTP/1.0" + " " == "HTTP/1.0 ";
    assert "HTTP/1.1 "[7] == '1' && "HTTP/1.0 "[7] == '0';
    assert line[..9] == Version(http11) + " ";
    assert line[9..12] == ThreeDigits(status);
    assert line[9] == ThreeDigits(status)[0] && line[10] == ThreeDigits(status)[1] && line[11] == ThreeDigits(status)[2];
    assert line[12..] == reason;
    DigitsOf(status, status / 100, status / 10 % 10, status % 10);
  }

  /** A status line is one of two versions, a space, three digits and a reason. */
  lemma StatusLineIs(line: string, status: nat, http11: bool)
    ensures ParseStatusLine(line) == Some(StatusLine(status, http11)) <==>
            status < 1000 && exists reason :: Reason(reason) && line == Version(http11) + " " + ThreeDigits(status) + reason
  {
    if ParseStatusLine(line) == Some(StatusLine(status, http11)) { ReadStatusLine(line, StatusLine(status, http11)); }
    if status < 1000 && exists reason :: Reason(reason) && line == Version(http11) + " " + ThreeDigits(status) + reason {
      var reason :| Reason(reason) && line == Version(http11) + " " + ThreeDigits(status) + reason;
      WriteStatusLine(http11, status, reason);
    }
  }
}
