/** URL rewriting, and how it composes with the match that selected the route. */
module UrlRewriting {
  import opened Text
  import opened RouteTable
  import opened RouteScan

  /** The rewritten path: a pure statement of what the rewrite produces. */
  function Rewritten(rw: Option<UrlRewrite>, path: string): string {
    match rw
    case None => path
    case Some(ReplaceFull(exact)) => exact
    case Some(ReplacePrefix(prefix, replacement)) =>
      if prefix <= path then Seam(TrimEnd(replacement, '/'), path[|prefix|..]) else path
  }

  /** Join a stem without trailing slash and a remainder by exactly one slash. */
  function Seam(stem: string, rest: string): string {
    if rest == "" then (if stem == "" then "/" else stem)
    else if rest[0] == '/' then stem + rest
    else stem + "/" + rest
  }

  method ApplyUrlRewrite(rw: Option<UrlRewrite>, path: string) returns (out: string)
    ensures out == Rewritten(rw, path)
  {
    match rw {
      case None =>
        out := path;
      case Some(ReplaceFull(exact)) =>
        out := exact;
      case Some(ReplacePrefix(prefix, replacement)) =>
        if prefix <= path {
          var rest := path[|prefix|..];
          out := TrimEnd(replacement, '/');
          if rest == "" {
            if out == "" {
              out := out + "/";
            }
          } else {
            if rest[0] != '/' {
              out := out + "/";
            }
            out := out + rest;
          }
          if out == "" {
            out := out + "/";
          }
        } else {
          out := path;
        }
    }
  }

  /** The rewrite a `ReplacePrefixMatch` filter compiles to for one match value. */
  function PrefixRewrite(matched: string, replacement: string): UrlRewrite {
    ReplacePrefix(TrimEnd(matched, '/'), replacement)
  }

  lemma PrefixMatchedStrips(path: string, kind: PathMatch, p: string)
    requires p != "" && !BaseOf(path).1 && PathRank(path, kind, p).Some?
    ensures TrimEnd(path, '/') <= p
    ensures var rest := p[|TrimEnd(path, '/')|..]; rest == "" || rest[0] == '/'
  {
    var t := TrimEnd(path, '/');
    var base := BaseOf(path).0;
    if path == "" {
      assert TrimEnd(base, '/') == "";
    } else {
      assert base == path;
    }
    assert TrimEnd(base, '/') == t;
    if kind == Exact {
      if path != "" && t != path { assert path[|t|] == '/'; }
    } else if p == t {
    } else {
      assert t + "/" <= p;
      assert p[..|t| + 1] == t + "/";
      assert p[|t|] == '/' && p[..|t|] == t;
    }
  }

  /**
   * A path matched by a route without the star shorthand is rewritten to the
   * trimmed replacement followed by the unmatched remainder: nothing is lost,
   * no slash is doubled at the seam, and a rooted replacement stays rooted.
   */
  lemma RewriteComposes(path: string, kind: PathMatch, replacement: string, p: string)
    requires p != "" && !BaseOf(path).1 && PathRank(path, kind, p).Some?
    ensures TrimEnd(path, '/') <= p
    ensures var out := Rewritten(Some(PrefixRewrite(path, replacement)), p);
            var stem, rest := TrimEnd(replacement, '/'), p[|TrimEnd(path, '/')|..];
            && out == (if stem == "" && rest == "" then "/" else stem + rest)
            && !(stem != "" && stem[|stem| - 1] == '/')
            && (rest != "" ==> rest[0] == '/')
            && (replacement != "" && replacement[0] == '/' ==> out != "" && out[0] == '/')
  {
    PrefixMatchedStrips(path, kind, p);
    var stem := TrimEnd(replacement, '/');
    if stem != "" { assert stem[0] == replacement[0]; }
  }

  /**
   * For a matched path the rewrite takes effect exactly when the route is not a
   * star shorthand, or the request path repeats the shorthand literally: the
   * filter strips the raw match value, star included.
   */
  lemma RewriteTakesEffect(path: string, kind: PathMatch, p: string)
    requires p != "" && PathRank(path, kind, p).Some?
    ensures TrimEnd(path, '/') <= p <==> !BaseOf(path).1 || path <= p
  {
    if !BaseOf(path).1 {
      PrefixMatchedStrips(path, kind, p);
    } else {
      assert path != "" && path[|path| - 1] != '/' by {
        if EndsWith(path, "/*catchall") {
          assert path[|path| - 1] == "/*catchall"[9];
        } else if EndsWith(path, "/*path") {
          assert path[|path| - 1] == "/*path"[5];
        } else if EndsWith(path, "/*") {
          assert path[|path| - 1] == "/*"[1];
        }
      }
    }
  }

  /** A shorthand prefix route whose rewrite is silently skipped. */
  lemma ShorthandRewriteSkipped()
    ensures PathRank("/api/*", Prefix, "/api/v1").Some?
    ensures Rewritten(Some(PrefixRewrite("/api/*", "/v2")), "/api/v1") == "/api/v1"
  {
    assert EndsWith("/api/*", "/*");
    assert !EndsWith("/api/*", "/*catchall");
    assert !EndsWith("/api/*", "/*path") by { assert "/api/*"[0..] == "/api/*"; assert "/api/*"[1] != "/*path"[1]; }
    assert "/api/*"[..4] == "/api";
    assert BaseOf("/api/*") == ("/api", true);
    assert TrimEnd("/api", '/') == "/api";
    assert "/api" + "/" <= "/api/v1" by { assert "/api/v1"[..5] == "/api/"; }
    assert TrimEnd("/api/*", '/') == "/api/*";
    assert !("/api/*" <= "/api/v1") by { assert "/api/v1"[5] != "/api/*"[5]; }
  }
}
