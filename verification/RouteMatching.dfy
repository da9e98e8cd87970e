/**
 * What hostnames and paths of a route match, said on the strings themselves, and
 * which of the matching routes a lookup picks.
 */
module RouteMatching {
  import opened Text
  import opened RouteTable
  import opened RouteScan

  // ----- the host of a request -------------------------------------------------

  lemma NoneBefore(a: string, c: char, b: string)
    requires c !in a
    ensures IndexOf(a + [c] + b, c) == |a| && (a + [c] + b)[..|a|] == a
  {
    var s := a + [c] + b;
    assert s[|a|] == c;
    forall i | 0 <= i < |a| ensures s[i] != c { assert s[i] == a[i] && a[i] in a; }
  }

  lemma Nowhere(a: string, c: char)
    requires c !in a
    ensures IndexOf(a, c) == |a|
  {
    assert forall i :: 0 <= i < |a| ==> a[i] in a;
  }

  /** A port behind a host name is not part of the routing name. */
  lemma PortStripped(h: string, port: string)
    requires ':' !in h && !("[" <= h)
    ensures HostWithoutPort(h + ":" + port) == h && HostWithoutPort(h) == h
  {
    NoneBefore(h, ':', port);
    Nowhere(h, ':');
    assert h + [':'] + port == h + ":" + port;
    if h == "" { assert (h + ":" + port)[0] == ':'; } else { assert (h + ":" + port)[0] == h[0]; }
  }

  /** An address literal ends at its closing bracket. */
  lemma BracketStripped(a: string, tail: string)
    requires ']' !in a
    ensures HostWithoutPort("[" + a + "]" + tail) == "[" + a + "]"
  {
    var front := "[" + a;
    NoneBefore(front, ']', tail);
    assert front + [']'] + tail == "[" + a + "]" + tail;
    assert ("[" + a + "]" + tail)[..|a| + 2] == "[" + a + "]";
  }

  lemma SameNameSameAnswer(t: Table, h1: string, h2: string, path: string)
    requires HostWithoutPort(h1) == HostWithoutPort(h2)
    ensures TieredLookup(t, Some(h1), path) == TieredLookup(t, Some(h2), path)
  {
  }

  /** In every table a Host with a port gets the answer of the host alone. */
  lemma PortIgnored(t: Table, h: string, port: string, path: string)
    requires ':' !in h && !("[" <= h)
    ensures TieredLookup(t, Some(h + ":" + port), path) == TieredLookup(t, Some(h), path)
  {
    PortStripped(h, port);
    SameNameSameAnswer(t, h + ":" + port, h, path);
  }

  /** In every table an address literal gets the answer of its bracketed part alone. */
  lemma BracketPortIgnored(t: Table, a: string, tail: string, path: string)
    requires ']' !in a
    ensures TieredLookup(t, Some("[" + a + "]" + tail), path) == TieredLookup(t, Some("[" + a + "]"), path)
  {
    BracketStripped(a, tail);
    BracketStripped(a, "");
    assert "[" + a + "]" + "" == "[" + a + "]";
    SameNameSameAnswer(t, "[" + a + "]" + tail, "[" + a + "]", path);
  }

  // ----- what a spec matches ------------------------------------------------------

  /** A hostname in Gateway API form matches a lower-case name. */
  ghost predicate HostMatches(hostname: Option<string>, name: Option<string>) {
    || hostname.None? || hostname.value == "*"
    || (name.Some? && if IsWildcard(hostname.value) then IsSuffix(Lower(hostname.value)[1..], name.value)
                      else name.value == Lower(hostname.value))
  }

  ghost predicate IsWildcard(hostname: string) {
    |hostname| >= 2 && hostname[0] == '*' && hostname[1] == '.'
  }

  ghost predicate IsSuffix(suffix: string, s: string) {
    exists front :: front + suffix == s
  }

  /** The shorthands for everything below a base. */
  ghost predicate IsShorthand(path: string, base: string) {
    path == base + "/*" || path == base + "/*path" || path == base + "/*catchall"
  }

  /** `p` is the base, up to trailing slashes, or lies below it at a slash. */
  ghost predicate AtOrBelow(base: string, p: string) {
    p == TrimEnd(base, '/') || TrimEnd(base, '/') + "/" <= p
  }

  ghost predicate PathMatches(path: string, kind: PathMatch, p: string) {
    if exists base :: IsShorthand(path, base) then exists base :: IsShorthand(path, base) && AtOrBelow(base, p)
    else if kind == Exact then p == path || (path == "" && p == "/")
    else AtOrBelow(path, p)
  }

  lemma LowerTail(h: string)
    requires h != ""
    ensures Lower(h)[1..] == Lower(h[1..])
  {
  }

  lemma SuffixIs(suffix: string, s: string)
    ensures EndsWith(s, suffix) <==> IsSuffix(suffix, s)
  {
    if EndsWith(s, suffix) {
      assert s[..|s| - |suffix|] + suffix == s;
    }
    if IsSuffix(suffix, s) {
      var front :| front + suffix == s;
      assert s[|s| - |suffix|..] == suffix;
    }
  }

  lemma HostIs(s: RouteSpec, name: Option<string>)
    ensures SpecHost(s, name).Some? <==> HostMatches(s.hostname, name)
  {
    if s.hostname.Some? && s.hostname.value != "*" {
      var h := s.hostname.value;
      assert "*." <= h <==> IsWildcard(h) by { if IsWildcard(h) { assert h[..2] == "*."; } }
      if IsWildcard(h) && name.Some? {
        LowerTail(h);
        SuffixIs(Lower(h[1..]), name.value);
      }
    }
  }

  lemma StripIs(path: string, suffix: string)
    ensures StripSuffix(path, suffix).Some? ==> path == StripSuffix(path, suffix).value + suffix
    ensures forall base :: path == base + suffix ==> StripSuffix(path, suffix) == Some(base)
  {
    forall base | path == base + suffix ensures StripSuffix(path, suffix) == Some(base) {
      assert path[|path| - |suffix|..] == suffix && path[..|path| - |suffix|] == base;
    }
    if EndsWith(path, suffix) { assert path == path[..|path| - |suffix|] + suffix; }
  }

  /** The shorthand's base is unique, and what the compiler takes. */
  lemma BaseIs(path: string)
    ensures BaseOf(path).1 <==> exists base :: IsShorthand(path, base)
    ensures forall base :: IsShorthand(path, base) ==> TrimEnd(BaseOf(path).0, '/') == TrimEnd(base, '/')
    ensures !BaseOf(path).1 ==> BaseOf(path).0 == if path == "" then "/" else path
  {
    StripIs(path, "/*catchall");
    StripIs(path, "/*path");
    StripIs(path, "/*");
    if path == "/*" {
      assert IsShorthand(path, "") by { assert "" + "/*" == "/*"; }
    } else if BaseOf(path).1 {
      Stripped(path);
    }
    forall base | IsShorthand(path, base) ensures BaseOf(path).1 && TrimEnd(BaseOf(path).0, '/') == TrimEnd(base, '/') {
      UniqueBase(path, base);
    }
  }

  lemma Stripped(path: string)
    requires path != "/*" && BaseOf(path).1
    ensures exists base :: IsShorthand(path, base)
  {
    StripIs(path, "/*catchall");
    StripIs(path, "/*path");
    StripIs(path, "/*");
    if StripSuffix(path, "/*catchall").Some? {
      assert IsShorthand(path, StripSuffix(path, "/*catchall").value);
    } else if StripSuffix(path, "/*path").Some? {
      assert IsShorthand(path, StripSuffix(path, "/*path").value);
    } else {
      assert IsShorthand(path, StripSuffix(path, "/*").value);
    }
  }

  /** Texts that end in different characters are not both suffixes. */
  lemma LastDiffers(path: string, a: string, b: string)
    requires a != "" && b != "" && a[|a| - 1] != b[|b| - 1] && EndsWith(path, a)
    ensures !EndsWith(path, b)
  {
    assert path[|path| - |a|..][|a| - 1] == a[|a| - 1];
    if |b| <= |path| { assert path[|path| - |b|..][|b| - 1] == path[|path| - 1]; }
  }

  lemma UniqueBase(path: string, base: string)
    requires IsShorthand(path, base)
    ensures BaseOf(path).1 && TrimEnd(BaseOf(path).0, '/') == TrimEnd(base, '/')
  {
    StripIs(path, "/*catchall");
    StripIs(path, "/*path");
    StripIs(path, "/*");
    if path == base + "/*" {
      LastDiffers(path, "/*", "/*catchall");
      LastDiffers(path, "/*", "/*path");
      if path == "/*" { assert base == ""; }
    } else if path == base + "/*path" {
      LastDiffers(path, "/*path", "/*catchall");
    }
  }

  lemma PathIs(s: RouteSpec, p: string)
    requires p != ""
    ensures SpecPath(s, p).Some? <==> PathMatches(s.path, s.pathMatch, p)
  {
    BaseIs(s.path);
    var base := BaseOf(s.path).0;
    assert p == TrimEnd(base, '/') + "/" ==> TrimEnd(base, '/') + "/" <= p;
    if s.path == "" { assert TrimEnd("/", '/') == "" == TrimEnd("", '/'); }
  }

  // ----- which match is preferred ----------------------------------------------------

  /** Any host, a wildcard, an exact name: later is more specific. */
  ghost function HostKind(hostname: Option<string>): nat {
    if hostname.None? || hostname.value == "*" then 0 else if IsWildcard(hostname.value) then 1 else 2
  }

  /** `a` is a less specific hostname than `b`: of a lower kind, or a wildcard of a shorter suffix. */
  ghost predicate LooserHost(a: Option<string>, b: Option<string>) {
    HostKind(a) < HostKind(b) || (HostKind(a) == HostKind(b) == 1 && |a.value| < |b.value|)
  }

  /** The base of a path match. */
  ghost predicate IsBase(path: string, base: string) {
    IsShorthand(path, base) || (base == path && forall b :: !IsShorthand(path, b))
  }

  /** The path is matched as a whole, not as something below it. */
  ghost predicate WholePath(path: string, kind: PathMatch, p: string) {
    PathMatches(path, kind, p) &&
    ((kind == Exact && forall b :: !IsShorthand(path, b)) || exists base :: IsBase(path, base) && UpToSlash(base, p))
  }

  ghost predicate UpToSlash(base: string, p: string) {
    p == TrimEnd(base, '/') || p == TrimEnd(base, '/') + "/"
  }

  ghost predicate LooserPath(s: RouteSpec, t: RouteSpec, p: string) {
    || (!WholePath(s.path, s.pathMatch, p) && WholePath(t.path, t.pathMatch, p))
    || (!WholePath(s.path, s.pathMatch, p) && !WholePath(t.path, t.pathMatch, p)
        && forall b, c :: IsBase(s.path, b) && IsBase(t.path, c) ==> |TrimEnd(b, '/')| < |TrimEnd(c, '/')|)
  }

  ghost predicate Matches(s: RouteSpec, name: Option<string>, p: string) {
    HostMatches(s.hostname, name) && PathMatches(s.path, s.pathMatch, p)
  }

  lemma MatchesIs(s: RouteSpec, name: Option<string>, p: string)
    requires p != ""
    ensures RankOf(s, name, p).Some? <==> Matches(s, name, p)
  {
    HostIs(s, name);
    PathIs(s, p);
  }

  lemma HostOrder(s: RouteSpec, t: RouteSpec, name: Option<string>)
    requires SpecHost(s, name).Some? && SpecHost(t, name).Some?
    ensures LooserHost(s.hostname, t.hostname) <==> SpecHost(s, name).value < SpecHost(t, name).value
  {
    HostValue(s, name);
    HostValue(t, name);
  }

  /** What the host rank measures. */
  lemma HostValue(s: RouteSpec, name: Option<string>)
    requires SpecHost(s, name).Some?
    ensures HostKind(s.hostname) == 0 ==> SpecHost(s, name).value == 0
    ensures HostKind(s.hostname) == 1 ==> name.Some? && SpecHost(s, name).value == |s.hostname.value| - 1 <= |name.value|
    ensures HostKind(s.hostname) == 2 ==> name.Some? && SpecHost(s, name).value == |name.value| + 1
  {
    if s.hostname.Some? && s.hostname.value != "*" {
      var h := s.hostname.value;
      if IsWildcard(h) { assert h[..2] == "*."; }
    }
  }

  lemma WholeIs(s: RouteSpec, p: string)
    requires p != "" && SpecPath(s, p).Some?
    ensures WholePath(s.path, s.pathMatch, p) <==> SpecPath(s, p).value == |p| + 1
    ensures !WholePath(s.path, s.pathMatch, p) ==>
              forall base :: IsBase(s.path, base) ==> SpecPath(s, p).value == |TrimEnd(base, '/')| < |p|
  {
    BaseIs(s.path);
    PathIs(s, p);
    TrimmedBase(s.path);
    var base := BaseOf(s.path).0;
    var t := TrimEnd(base, '/');
    if SpecPath(s, p).value == |p| + 1 {
      WholeWitness(s, p);
    } else {
      assert t + "/" <= p;
    }
  }

  /** Every base of a path trims to the compiler's. */
  lemma TrimmedBase(path: string)
    ensures forall base :: IsBase(path, base) ==> TrimEnd(BaseOf(path).0, '/') == TrimEnd(base, '/')
    ensures exists base :: IsBase(path, base)
  {
    BaseIs(path);
    if BaseOf(path).1 {
      var base :| IsShorthand(path, base);
      assert IsBase(path, base);
    } else {
      assert IsBase(path, path);
      if path == "" { assert TrimEnd("/", '/') == "" == TrimEnd("", '/'); }
    }
  }

  lemma WholeWitness(s: RouteSpec, p: string)
    requires p != "" && SpecPath(s, p) == Some(|p| + 1) && PathMatches(s.path, s.pathMatch, p)
    ensures WholePath(s.path, s.pathMatch, p)
  {
    BaseIs(s.path);
    TrimmedBase(s.path);
    if !(s.pathMatch == Exact && !BaseOf(s.path).1) {
      var base :| IsBase(s.path, base);
      assert UpToSlash(base, p);
    }
  }

  /** Spec `i` is the one to pick: it matches, and every other match is no better. */
  ghost predicate Preferred(specs: seq<RouteSpec>, name: Option<string>, p: string, i: nat) {
    && i < |specs| && Matches(specs[i], name, p)
    && forall j :: 0 <= j < |specs| && Matches(specs[j], name, p) ==>
         && !LooserHost(specs[i].hostname, specs[j].hostname)
         && (!LooserHost(specs[j].hostname, specs[i].hostname) ==>
               && !LooserPath(specs[i], specs[j], p)
               && (!LooserPath(specs[j], specs[i], p) ==> i <= j))
  }

  lemma PathOrder(s: RouteSpec, t: RouteSpec, p: string)
    requires p != "" && SpecPath(s, p).Some? && SpecPath(t, p).Some?
    ensures LooserPath(s, t, p) <==> SpecPath(s, p).value < SpecPath(t, p).value
  {
    WholeIs(s, p);
    WholeIs(t, p);
    TrimmedBase(s.path);
    TrimmedBase(t.path);
  }

  lemma AboveIs(s: RouteSpec, t: RouteSpec, name: Option<string>, p: string)
    requires p != "" && RankOf(s, name, p).Some? && RankOf(t, name, p).Some?
    ensures Above(RankOf(t, name, p).value, RankOf(s, name, p).value) <==>
            LooserHost(s.hostname, t.hostname) || (!LooserHost(t.hostname, s.hostname) && LooserPath(s, t, p))
    ensures RankOf(s, name, p) == RankOf(t, name, p) <==>
            && !LooserHost(s.hostname, t.hostname) && !LooserHost(t.hostname, s.hostname)
            && !LooserPath(s, t, p) && !LooserPath(t, s, p)
  {
    HostOrder(s, t, name);
    HostOrder(t, s, name);
    PathOrder(s, t, p);
    PathOrder(t, s, p);
  }

  lemma BestIsPreferred(specs: seq<RouteSpec>, name: Option<string>, p: string, i: nat)
    requires p != "" && Best(Ranks(specs, name, p), i)
    ensures Preferred(specs, name, p, i)
  {
    var ranks := Ranks(specs, name, p);
    MatchesIs(specs[i], name, p);
    forall j | 0 <= j < |specs| && Matches(specs[j], name, p)
      ensures !LooserHost(specs[i].hostname, specs[j].hostname)
      ensures !LooserHost(specs[j].hostname, specs[i].hostname) ==>
                !LooserPath(specs[i], specs[j], p) && (!LooserPath(specs[j], specs[i], p) ==> i <= j)
    {
      MatchesIs(specs[j], name, p);
      assert ranks[j] == RankOf(specs[j], name, p) && ranks[i] == RankOf(specs[i], name, p);
      AboveIs(specs[i], specs[j], name, p);
      AboveIs(specs[j], specs[i], name, p);
    }
  }

  /**
   * The lookup, said on the strings of the route list: it finds something if and
   * only if some route's hostname and path match the request, and then the one of
   * the most specific hostname, then of the most specific path, then the earliest.
   */
  lemma LookupPicksPreferred(specs: seq<RouteSpec>, host: Option<string>, path: string)
    ensures var r, name, p := TieredLookup(TableOf(specs), host, path), NameOf(host), if path == "" then "/" else path;
            && (r.Some? <==> exists i :: 0 <= i < |specs| && Matches(specs[i], name, p))
            && (r.Some? ==> Preferred(specs, name, p, r.value.group) && r.value.target == specs[r.value.group].target)
  {
    var name, p := NameOf(host), if path == "" then "/" else path;
    LookupRefinesScan(specs, host, path);
    ScanIsBest(Ranks(specs, name, p));
    match Scan(specs, name, p) {
      case Some(i) => BestIsPreferred(specs, name, p, i);
      case None =>
        forall i | 0 <= i < |specs| ensures !Matches(specs[i], name, p) {
          assert Ranks(specs, name, p)[i].None?;
          MatchesIs(specs[i], name, p);
        }
    }
  }

  /**
   * A route for a host name answers for that name whatever its case and whatever
   * port the client put behind it.
   */
  lemma HostAnswers(hostname: string, h: string, port: string, target: Target, path: string)
    requires EqCi(hostname, h) && ':' !in h && !("[" <= h) && !("*" <= h) && |h| <= 256
    requires path == "" || path[0] == '/'
    ensures TieredLookup(TableOf([RouteSpec(Some(hostname), "/", Prefix, target)]), Some(h + ":" + port), path)
         == Some(RouteAction(0, target))
  {
    var specs := [RouteSpec(Some(hostname), "/", Prefix, target)];
    var p := if path == "" then "/" else path;
    PortIgnored(TableOf(specs), h, port, path);
    PortStripped(h, port);
    LookupPicksPreferred(specs, Some(h), path);
    assert NameOf(Some(h)) == Some(Lower(h));
    PlainHost(hostname, h);
    RootMatches(p);
    assert Matches(specs[0], Some(Lower(h)), p);
    LookupRefinesScan(specs, Some(h), path);
  }

  /** A host name that is no wildcard is none in any case. */
  lemma PlainHost(hostname: string, h: string)
    requires EqCi(hostname, h) && !("*" <= h)
    ensures HostMatches(Some(hostname), Some(Lower(h)))
  {
    if hostname != "" {
      assert |Lower(hostname)| == |Lower(h)|;
      assert Lower(hostname)[0] == LowerChar(hostname[0]) && Lower(h)[0] == LowerChar(h[0]);
      assert h[0] == '*' <==> "*" <= h;
    }
  }

  /** The root prefix matches every rooted path. */
  lemma RootMatches(p: string)
    requires p != "" && p[0] == '/'
    ensures PathMatches("/", Prefix, p)
  {
    assert TrimEnd("/", '/') == "";
    assert "" + "/" <= p;
    forall base ensures !IsShorthand("/", base) {
      assert |base + "/*"| >= 2 && |base + "/*path"| >= 2 && |base + "/*catchall"| >= 2;
    }
  }
}
