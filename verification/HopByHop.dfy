/**
 * The two hop-by-hop filters: header lines as the Monoio plane rewrites them, and
 * the header map the other planes strip in place.
 */
module HopByHop {
  import opened Text
  import opened Http1
  import opened Http1Writer
  import opened Http1Framing

  // ----- the header-map filter -------------------------------------------------

  /** Removed in order after Connection itself. */
  const MAP_HOP_BY_HOP: seq<string> := [
    "keep-alive", "proxy-authenticate", "proxy-authorization", "proxy-connection", "te", "trailer", "upgrade"
  ]

  /** `HeaderValue::to_str` succeeds: visible ASCII, space or tab only. */
  predicate Visible(v: string) {
    forall i :: 0 <= i < |v| ==> v[i] == '\t' || ' ' <= v[i] <= '~'
  }

  /** The header name one token nominates; invalid names are skipped. */
  function NominatedName(token: string): seq<string> {
    var t := TrimText(token);
    if t == "" || Lower(t) == "close" || Lower(t) == "keep-alive" || !Tokens(t) then [] else [Lower(t)]
  }

  function MapNominatedIn(value: string): seq<string> {
    if Visible(value) then FlatMap(Split(value, ','), NominatedName) else []
  }

  /** All names nominated by the readable Connection values. */
  function MapNominated(vals: seq<string>): seq<string> {
    FlatMap(vals, MapNominatedIn)
  }

  function RemoveName(hs: seq<Header>, name: string): seq<Header> {
    if hs == [] then []
    else (if hs[0].name == name then [] else [hs[0]]) + RemoveName(hs[1..], name)
  }

  /** Keep the headers whose name is not in a list. */
  function Without(hs: seq<Header>, names: seq<string>): seq<Header> {
    if hs == [] then []
    else (if hs[0].name in names then [] else [hs[0]]) + Without(hs[1..], names)
  }

  function MapDropped(hs: seq<Header>): seq<string> {
    ["connection"] + MAP_HOP_BY_HOP + MapNominated(Values(hs, "connection"))
  }

  /** A header map: lower-case names, values in insertion order. */
  class HeaderMap {
    var entries: seq<Header>

    constructor (hs: seq<Header>)
      ensures entries == hs
    {
      entries := hs;
    }

    method Remove(name: string)
      modifies this
      ensures entries == RemoveName(old(entries), name)
    {
      entries := RemoveName(entries, name);
    }
  }

  lemma {:induction false} RemoveOne(hs: seq<Header>, done: seq<string>, name: string)
    ensures RemoveName(Without(hs, done), name) == Without(hs, done + [name])
  {
    if hs != [] {
      RemoveOne(hs[1..], done, name);
      var rest := Without(hs[1..], done);
      if hs[0].name !in done {
        assert ([hs[0]] + rest)[1..] == rest;
      } else {
        assert [] + rest == rest;
      }
    }
  }

  lemma {:induction false} WithoutNone(hs: seq<Header>)
    ensures Without(hs, []) == hs
  {
    if hs != [] { WithoutNone(hs[1..]); }
  }

  method RemoveAll(headers: HeaderMap, names: seq<string>, ghost hs: seq<Header>, ghost done: seq<string>)
    requires headers.entries == Without(hs, done)
    modifies headers
    ensures headers.entries == Without(hs, done + names)
  {
    assert done + names[..0] == done;
    for i := 0 to |names|
      invariant headers.entries == Without(hs, done + names[..i])
    {
      headers.Remove(names[i]);
      RemoveOne(hs, done + names[..i], names[i]);
      assert done + names[..i] + [names[i]] == done + names[..i + 1];
    }
    assert names[..|names|] == names;
  }

  method StripHopByHop(headers: HeaderMap)
    modifies headers
    ensures headers.entries == Without(old(headers.entries), MapDropped(old(headers.entries)))
  {
    ghost var hs := headers.entries;
    var nominated := MapNominated(Values(headers.entries, "connection"));
    WithoutNone(hs);
    headers.Remove("connection");
    RemoveOne(hs, [], "connection");
    assert [] + ["connection"] == ["connection"];
    RemoveAll(headers, MAP_HOP_BY_HOP, hs, ["connection"]);
    RemoveAll(headers, nominated, hs, ["connection"] + MAP_HOP_BY_HOP);
  }

  // ----- both see the same tokens ------------------------------------------------

  lemma LeadingBlank(c: char, p: string)
    requires IsAsciiSpace(c)
    ensures Trim([c] + p, AsciiSpace) == Trim(p, AsciiSpace)
  {
    assert ([c] + p)[1..] == p;
  }

  lemma {:induction false} DropLeadingSnoc(s: string, c: char)
    requires IsAsciiSpace(c)
    ensures DropLeading(s + [c], AsciiSpace) == if DropLeading(s, AsciiSpace) == "" then "" else DropLeading(s, AsciiSpace) + [c]
  {
    if s == "" {
      assert s + [c] == [c];
      assert [c][1..] == "";
    } else {
      assert (s + [c])[1..] == s[1..] + [c];
      DropLeadingSnoc(s[1..], c);
    }
  }

  lemma TrailingBlank(c: char, p: string)
    requires IsAsciiSpace(c)
    ensures Trim(p + [c], AsciiSpace) == Trim(p, AsciiSpace)
  {
    DropLeadingSnoc(p, c);
    var d := DropLeading(p, AsciiSpace);
    if d != "" {
      assert (d + [c])[..|d + [c]| - 1] == d;
    }
  }

  lemma {:induction false} SplitLeading(c: char, s: string)
    requires c != ','
    ensures Split([c] + s, ',') == [[c] + Split(s, ',')[0]] + Split(s, ',')[1..]
  {
    var i, j := IndexOf(s, ','), IndexOf([c] + s, ',');
    assert ([c] + s)[1..] == s;
    assert j == i + 1;
    if i < |s| {
      assert ([c] + s)[..j] == [c] + s[..i];
      assert ([c] + s)[j + 1..] == s[i + 1..];
    }
  }

  /** Blanks at either end of a token do not matter to `f`. */
  ghost predicate IgnoresBlanks(f: string -> seq<string>) {
    forall c: char, p: string {:trigger Blanked(c, p)} :: Blanked(c, p) ==> f([c] + p) == f(p) && f(p + [c]) == f(p)
  }

  /** `p` may have the blank `c` put at either end. */
  ghost predicate Blanked(c: char, p: string) {
    IsOws(c)
  }

  lemma FlatLeading(c: char, s: string, f: string -> seq<string>)
    requires IsOws(c) && IgnoresBlanks(f)
    ensures FlatMap(Split([c] + s, ','), f) == FlatMap(Split(s, ','), f)
  {
    SplitLeading(c, s);
    var a, b := Split([c] + s, ','), Split(s, ',');
    assert a[1..] == b[1..] && a[0] == [c] + b[0];
    assert Blanked(c, b[0]);
  }

  lemma {:induction false} FlatTrailing(s: string, c: char, f: string -> seq<string>)
    requires IsOws(c) && IgnoresBlanks(f)
    ensures FlatMap(Split(s + [c], ','), f) == FlatMap(Split(s, ','), f)
  {
    var i, t := IndexOf(s, ','), s + [c];
    IndexSnoc(s, c);
    if i == |s| {
      assert Split(t, ',') == [t] && Split(s, ',') == [s];
      assert Blanked(c, s);
      assert [t][1..] == [s][1..];
    } else {
      assert t[..i] == s[..i] && t[i + 1..] == s[i + 1..] + [c];
      FlatTrailing(s[i + 1..], c, f);
      SplitHead(t, i);
      SplitHead(s, i);
      FlatSameHead(s[..i], Split(t[i + 1..], ','), Split(s[i + 1..], ','), f);
    }
  }

  lemma SplitHead(s: string, i: nat)
    requires i == IndexOf(s, ',') < |s|
    ensures Split(s, ',') == [s[..i]] + Split(s[i + 1..], ',')
  {
  }

  lemma FlatSameHead(p: string, a: seq<string>, b: seq<string>, f: string -> seq<string>)
    requires FlatMap(a, f) == FlatMap(b, f)
    ensures FlatMap([p] + a, f) == FlatMap([p] + b, f)
  {
    assert ([p] + a)[1..] == a && ([p] + b)[1..] == b;
  }

  lemma {:induction false} IndexSnoc(s: string, c: char)
    requires c != ','
    ensures IndexOf(s + [c], ',') == if IndexOf(s, ',') == |s| then |s| + 1 else IndexOf(s, ',')
  {
    if s == "" {
      assert s + [c] == [c];
      assert [c][1..] == "";
    } else {
      assert (s + [c])[1..] == s[1..] + [c];
      IndexSnoc(s[1..], c);
    }
  }

  /** The blanks around a field value do not change what its tokens yield. */
  lemma {:induction false} FlatDropLeading(s: string, f: string -> seq<string>)
    requires IgnoresBlanks(f)
    ensures FlatMap(Split(DropLeading(s, Ows), ','), f) == FlatMap(Split(s, ','), f)
  {
    if s != "" && IsBlank(s[0], Ows) {
      FlatDropLeading(s[1..], f);
      FlatLeading(s[0], s[1..], f);
      assert [s[0]] + s[1..] == s;
    }
  }

  lemma {:induction false} FlatDropTrailing(s: string, f: string -> seq<string>)
    requires IgnoresBlanks(f)
    ensures FlatMap(Split(DropTrailing(s, Ows), ','), f) == FlatMap(Split(s, ','), f)
  {
    if s != "" && IsBlank(s[|s| - 1], Ows) {
      var e := |s| - 1;
      FlatDropTrailing(s[..e], f);
      FlatTrailing(s[..e], s[e], f);
      assert s[..e] + [s[e]] == s;
    }
  }

  lemma NominationIgnoresBlanks()
    ensures IgnoresBlanks(NominatedToken)
  {
    forall c: char, p: string | Blanked(c, p)
      ensures NominatedToken([c] + p) == NominatedToken(p) && NominatedToken(p + [c]) == NominatedToken(p)
    {
      LeadingBlank(c, p);
      TrailingBlank(c, p);
    }
  }

  lemma NominatedByValue(l: string)
    requires ParseHeader(l).Some?
    ensures NominatedIn(LineValue(l)) == NominatedIn(ParseHeader(l).value.value)
  {
    HeaderValue(l);
    var raw := LineValue(l);
    NominationIgnoresBlanks();
    FlatDropLeading(raw, NominatedToken);
    FlatDropTrailing(DropLeading(raw, Ows), NominatedToken);
  }

  lemma HeaderValue(l: string)
    requires ParseHeader(l).Some?
    ensures HasColon(l) && ParseHeader(l).value.value == Trim(LineValue(l), Ows)
  {
  }

  /** What the line filter nominates, read off the Connection values. */
  function LineNominated(vals: seq<string>): seq<string> {
    FlatMap(vals, NominatedIn)
  }

  /** Nominations line by line are nominations value by value. */
  lemma {:induction false} FlatByValues(lines: seq<string>, parse: string -> Option<Header>,
                                        byLine: string -> seq<string>, byValue: string -> seq<string>)
    requires ParseAll(lines, parse).Some?
    requires forall l :: l in lines ==> parse(l).Some?
    requires forall l :: l in lines ==>
      byLine(l) == if Lower(parse(l).value.name) == "connection" then byValue(parse(l).value.value) else []
    ensures FlatMap(lines, byLine) == FlatMap(Values(ParseAll(lines, parse).value, "connection"), byValue)
  {
    if lines != [] {
      var l, rest := lines[0], lines[1..];
      assert l in lines && forall x :: x in rest ==> x in lines;
      FlatByValues(rest, parse, byLine, byValue);
      var h, hs := parse(l).value, ParseAll(rest, parse).value;
      ValuesCons(h, hs, "connection");
      FlatCons(h.value, Values(hs, "connection"), byValue);
      assert [] + Values(hs, "connection") == Values(hs, "connection");
      assert [] + FlatMap(rest, byLine) == FlatMap(rest, byLine);
    }
  }

  lemma FlatCons(t: string, ts: seq<string>, f: string -> seq<string>)
    ensures FlatMap([t] + ts, f) == f(t) + FlatMap(ts, f)
  {
    assert ([t] + ts)[1..] == ts;
  }

  // ----- names, not just tokens ----------------------------------------------------

  lemma TokenCase(c: char)
    ensures IsToken(LowerChar(c)) <==> IsToken(c)
  {
  }

  lemma TokensCase(t: string)
    ensures Tokens(Lower(t)) <==> Tokens(t)
  {
    forall i | 0 <= i < |t| ensures IsToken(Lower(t)[i]) <==> IsToken(t[i]) { TokenCase(t[i]); }
    if Tokens(Lower(t)) {
      forall i | 0 <= i < |t| ensures IsToken(t[i]) { assert IsToken(Lower(t)[i]); }
    }
  }

  lemma {:induction false} VisibleTrim(t: string)
    requires Visible(t)
    ensures TrimText(t) == Trim(t, AsciiSpace)
    decreases |t|
  {
    if t != "" {
      var e := |t| - 1;
      VisibleSpace(t);
      if IsAsciiSpace(t[0]) {
        VisibleTrim(t[1..]);
        TrimFront(t);
      } else if IsAsciiSpace(t[e]) {
        VisibleTrim(t[..e]);
        TrimBack(t, e);
      } else {
        TrimNothing(t);
      }
    }
  }

  lemma TrimFront(t: string)
    requires t != "" && IsAsciiSpace(t[0]) && LeadingSpace(t) == 1
    ensures TrimText(t) == TrimText(t[1..]) && Trim(t, AsciiSpace) == Trim(t[1..], AsciiSpace)
  {
  }

  lemma TrimBack(t: string, e: nat)
    requires t != "" && e == |t| - 1 && !IsAsciiSpace(t[0]) && IsAsciiSpace(t[e])
    requires LeadingSpace(t) == 0 && TrailingSpace(t) == 1
    ensures TrimText(t) == TrimText(t[..e]) && Trim(t, AsciiSpace) == Trim(t[..e], AsciiSpace)
  {
    assert DropLeading(t[..e], AsciiSpace) == t[..e];
  }

  lemma TrimNothing(t: string)
    requires t != "" && !IsAsciiSpace(t[0]) && !IsAsciiSpace(t[|t| - 1])
    requires LeadingSpace(t) == 0 && TrailingSpace(t) == 0
    ensures TrimText(t) == t && Trim(t, AsciiSpace) == t
  {
  }

  /** In visible text only ASCII blanks count as white space. */
  lemma VisibleSpace(t: string)
    requires Visible(t) && t != ""
    ensures LeadingSpace(t) == if IsAsciiSpace(t[0]) then 1 else 0
    ensures TrailingSpace(t) == if IsAsciiSpace(t[|t| - 1]) then 1 else 0
  {
  }

  lemma {:induction false} SplitVisible(s: string, k: nat)
    requires Visible(s) && k < |Split(s, ',')|
    ensures Visible(Split(s, ',')[k])
    decreases |s|
  {
    var i := IndexOf(s, ',');
    if i < |s| && k > 0 {
      assert Split(s, ',')[k] == Split(s[i + 1..], ',')[k - 1];
      SplitVisible(s[i + 1..], k - 1);
    }
  }

  lemma SameName(token: string, n: string)
    requires Tokens(n) && Visible(token)
    ensures n in NominatedToken(token) <==> n in NominatedName(token)
  {
    VisibleTrim(token);
    TokensCase(TrimText(token));
  }

  lemma {:induction false} FlatMember(ts: seq<string>, n: string, f: string -> seq<string>, g: string -> seq<string>, h: string -> seq<string>)
    requires forall t :: t in ts ==> (n in f(t) <==> n in g(t) || n in h(t))
    ensures n in FlatMap(ts, f) <==> n in FlatMap(ts, g) || n in FlatMap(ts, h)
  {
    if ts != [] {
      assert ts[0] in ts && forall t :: t in ts[1..] ==> t in ts;
      FlatMember(ts[1..], n, f, g, h);
    }
  }

  /** On a readable value both filters nominate the same header names. */
  lemma SameNames(value: string, n: string)
    requires Tokens(n) && Visible(value)
    ensures n in NominatedIn(value) <==> n in MapNominatedIn(value)
  {
    var tokens := Split(value, ',');
    forall t | t in tokens ensures n in NominatedToken(t) <==> n in NominatedName(t) {
      var k :| 0 <= k < |tokens| && tokens[k] == t;
      SplitVisible(value, k);
      SameName(t, n);
    }
    FlatMember(tokens, n, NominatedToken, NominatedName, NominatedName);
  }

  /** The names an unreadable Connection value nominates reach the line filter only. */
  function UnreadableIn(value: string): seq<string> {
    if Visible(value) then [] else NominatedIn(value)
  }

  function Unreadable(vals: seq<string>): seq<string> {
    FlatMap(vals, UnreadableIn)
  }

  lemma NominationSplit(vals: seq<string>, n: string)
    requires Tokens(n)
    ensures n in LineNominated(vals) <==> n in MapNominated(vals) || n in Unreadable(vals)
  {
    forall v | v in vals ensures n in NominatedIn(v) <==> n in MapNominatedIn(v) || n in UnreadableIn(v) {
      if Visible(v) { SameNames(v, n); }
    }
    FlatMember(vals, n, NominatedIn, MapNominatedIn, UnreadableIn);
  }

  // ----- agreement ---------------------------------------------------------------------

  function LowerNames(hs: seq<Header>): (r: seq<Header>)
    ensures |r| == |hs|
    ensures forall i :: 0 <= i < |hs| ==> r[i] == Header(Lower(hs[i].name), hs[i].value)
  {
    seq(|hs|, i requires 0 <= i < |hs| => Header(Lower(hs[i].name), hs[i].value))
  }

  lemma LowerTwice(s: string)
    ensures Lower(Lower(s)) == Lower(s)
  {
  }

  lemma {:induction false} LowerNamesValues(hs: seq<Header>, name: string)
    ensures Values(LowerNames(hs), name) == Values(hs, name)
  {
    if hs != [] {
      var n := |hs| - 1;
      LowerNamesValues(hs[..n], name);
      assert LowerNames(hs)[..n] == LowerNames(hs[..n]);
      LowerTwice(hs[n].name);
    }
  }

  /** Filtering lines and then parsing is filtering the parsed headers by name. */
  lemma {:induction false} FilterIsWithout(lines: seq<string>, keep: string -> bool, names: seq<string>, parse: string -> Option<Header>)
    requires ParseAll(lines, parse).Some?
    requires forall l :: l in lines ==> parse(l).Some? && (keep(l) <==> Lower(parse(l).value.name) !in names)
    ensures ParseAll(Filter(lines, keep), parse).Some?
    ensures LowerNames(ParseAll(Filter(lines, keep), parse).value) == Without(LowerNames(ParseAll(lines, parse).value), names)
  {
    if lines != [] {
      var l, rest := lines[0], lines[1..];
      assert l in lines && forall x :: x in rest ==> x in lines;
      FilterIsWithout(rest, keep, names, parse);
      FilterCons(lines, keep, parse);
      var h, hs, fs := parse(l).value, ParseAll(rest, parse).value, ParseAll(Filter(rest, keep), parse).value;
      LowerCons(h, hs);
      LowerCons(h, fs);
      WithoutCons(Header(Lower(h.name), h.value), LowerNames(hs), names);
    }
  }

  lemma LowerCons(h: Header, hs: seq<Header>)
    ensures LowerNames([h] + hs) == [Header(Lower(h.name), h.value)] + LowerNames(hs)
  {
  }

  lemma WithoutCons(h: Header, hs: seq<Header>, names: seq<string>)
    ensures Without([h] + hs, names) == (if h.name in names then [] else [h]) + Without(hs, names)
  {
    assert ([h] + hs)[1..] == hs;
  }

  lemma {:induction false} WithoutSame(hs: seq<Header>, a: seq<string>, b: seq<string>)
    ensures Without(hs, a) == Without(hs, b) <==> forall h :: h in hs ==> (h.name in a <==> h.name in b)
  {
    if hs != [] {
      var x, rest := hs[0], hs[1..];
      assert forall h :: h in hs <==> h == x || h in rest;
      if (x.name in a) == (x.name in b) {
        WithoutSame(rest, a, b);
        SameFront(if x.name in a then [] else [x], Without(rest, a), Without(rest, b));
      } else {
        WithoutCount(hs, a, b, x);
      }
    }
  }

  lemma SameFront(front: seq<Header>, u: seq<Header>, v: seq<Header>)
    ensures front + u == front + v <==> u == v
  {
    assert (front + u)[|front|..] == u && (front + v)[|front|..] == v;
  }

  lemma {:induction false} WithoutShorter(hs: seq<Header>, names: seq<string>)
    ensures forall h :: h in Without(hs, names) <==> h in hs && h.name !in names
  {
    if hs != [] { WithoutShorter(hs[1..], names); }
  }

  lemma WithoutCount(hs: seq<Header>, a: seq<string>, b: seq<string>, x: Header)
    requires x in hs && (x.name in a) != (x.name in b)
    ensures Without(hs, a) != Without(hs, b)
  {
    WithoutShorter(hs, a);
    WithoutShorter(hs, b);
    assert x in Without(hs, a) <==> x !in Without(hs, b);
  }

  function LineDropped(lines: seq<string>): seq<string> {
    ["connection"] + MAP_HOP_BY_HOP + Nominated(lines)
  }

  lemma SameFixedSet(n: string)
    ensures n in HOP_BY_HOP <==> n in ["connection"] + MAP_HOP_BY_HOP
  {
  }

  lemma LineFilter(lines: seq<string>)
    requires ParseHeaders(lines).Some?
    ensures ParseHeaders(Filter(lines, Keeper(Nominated(lines), Return))).Some?
    ensures LowerNames(ParseHeaders(Filter(lines, Keeper(Nominated(lines), Return))).value)
         == Without(LowerNames(ParseHeaders(lines).value), LineDropped(lines))
    ensures Nominated(lines) == LineNominated(Values(ParseHeaders(lines).value, "connection"))
  {
    HeadersClean(lines);
    forall l | l in lines
      ensures ParseHeader(l).Some? && HasColon(l) && LineName(l) == Lower(ParseHeader(l).value.name)
      ensures Keeper(Nominated(lines), Return)(l) <==> Lower(ParseHeader(l).value.name) !in LineDropped(lines)
      ensures NominatedByLine(l) == if Lower(ParseHeader(l).value.name) == "connection" then NominatedIn(ParseHeader(l).value.value) else []
    {
      LineNameIsHeaderName(l);
      KeptByName(l, Nominated(lines), Return);
      SameFixedSet(Lower(ParseHeader(l).value.name));
      NominatedByValue(l);
    }
    FilterIsWithout(lines, Keeper(Nominated(lines), Return), LineDropped(lines), ParseHeader);
    FlatByValues(lines, ParseHeader, NominatedByLine, NominatedIn);
  }

  /** The header names a message carries are tokens. */
  lemma NamesAreTokens(lines: seq<string>)
    requires ParseHeaders(lines).Some?
    ensures forall h :: h in LowerNames(ParseHeaders(lines).value) ==> Tokens(h.name)
  {
    var hs := ParseHeaders(lines).value;
    ParseAllEach(lines, ParseHeader);
    forall i | 0 <= i < |hs| ensures Tokens(LowerNames(hs)[i].name) {
      HeaderParts(lines[i]);
      TokensCase(hs[i].name);
    }
  }

  /**
   * The line filter and the header-map filter keep the same headers, with the
   * same values in the same order, exactly when no header of the message is
   * nominated by unreadable Connection values alone.
   */
  lemma FiltersAgree(lines: seq<string>)
    requires ParseHeaders(lines).Some?
    ensures ParseHeaders(Filter(lines, Keeper(Nominated(lines), Return))).Some?
    ensures var hs := LowerNames(ParseHeaders(lines).value);
            var vals := Values(hs, "connection");
            LowerNames(ParseHeaders(Filter(lines, Keeper(Nominated(lines), Return))).value) == Without(hs, MapDropped(hs))
            <==> forall h :: h in hs && h.name in Unreadable(vals) ==> h.name in MapDropped(hs)
  {
    LineFilter(lines);
    NamesAreTokens(lines);
    var hs := LowerNames(ParseHeaders(lines).value);
    LowerNamesValues(ParseHeaders(lines).value, "connection");
    var vals := Values(hs, "connection");
    WithoutSame(hs, LineDropped(lines), MapDropped(hs));
    forall h | h in hs
      ensures (h.name in LineDropped(lines) <==> h.name in MapDropped(hs)) <==> (h.name in Unreadable(vals) ==> h.name in MapDropped(hs))
    {
      NominationSplit(vals, h.name);
    }
  }

  // ----- idempotence ----------------------------------------------------------------------

  lemma {:induction false} WithoutTwice(hs: seq<Header>, a: seq<string>, b: seq<string>)
    requires forall n :: n in b ==> n in a
    ensures Without(Without(hs, a), b) == Without(hs, a)
  {
    if hs != [] {
      WithoutTwice(hs[1..], a, b);
      var rest := Without(hs[1..], a);
      if hs[0].name !in a {
        assert ([hs[0]] + rest)[1..] == rest;
      } else {
        assert [] + rest == rest;
      }
    }
  }

  lemma {:induction false} NoConnectionValues(hs: seq<Header>)
    requires forall h :: h in hs ==> Lower(h.name) != "connection"
    ensures Values(hs, "connection") == []
  {
    if hs != [] {
      assert hs[|hs| - 1] in hs && forall h :: h in hs[..|hs| - 1] ==> h in hs;
      NoConnectionValues(hs[..|hs| - 1]);
    }
  }

  /** Stripping an already stripped map changes nothing: its nominations went with its Connection headers. */
  lemma StripIdempotent(hs: seq<Header>)
    requires forall h :: h in hs ==> Lower(h.name) == h.name
    ensures var once := Without(hs, MapDropped(hs)); Without(once, MapDropped(once)) == once
  {
    var once := Without(hs, MapDropped(hs));
    WithoutShorter(hs, MapDropped(hs));
    assert "connection" in MapDropped(hs);
    NoConnectionValues(once);
    assert MapNominated([]) == [];
    WithoutTwice(hs, MapDropped(hs), MapDropped(once));
  }

  lemma {:induction false} FilterMembers(lines: seq<string>, keep: string -> bool)
    ensures forall l :: l in Filter(lines, keep) ==> l in lines && keep(l)
  {
    if lines != [] { FilterMembers(lines[1..], keep); }
  }

  lemma {:induction false} FilterAll(lines: seq<string>, keep: string -> bool)
    requires forall l :: l in lines ==> keep(l)
    ensures Filter(lines, keep) == lines
  {
    if lines != [] {
      assert lines[0] in lines && forall l :: l in lines[1..] ==> l in lines;
      FilterAll(lines[1..], keep);
    }
  }

  /** So does filtering the lines of an already rewritten head. */
  lemma LineFilterIdempotent(lines: seq<string>)
    requires ParseHeaders(lines).Some?
    ensures var once := Filter(lines, Keeper(Nominated(lines), Return));
            Filter(once, Keeper(Nominated(once), Return)) == once
  {
    var keep := Keeper(Nominated(lines), Return);
    var once := Filter(lines, keep);
    NotHopByHop();
    SurvivingName(lines, Nominated(lines), Return, "connection");
    LineFilter(once);
    assert Nominated(once) == LineNominated([]) == [];
    FilterMembers(lines, keep);
    forall l | l in once ensures Keeper(Nominated(once), Return)(l) {
      assert Kept(l, Nominated(lines), Return);
    }
    FilterAll(once, Keeper(Nominated(once), Return));
  }
}
