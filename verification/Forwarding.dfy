/** From a request to the target sent upstream, through the table compiled from the cluster state. */
module Forwarding {
  import opened Text
  import opened RouteTable
  import opened RouteScan
  import opened UrlRewriting
  import opened Gateway
  import Connection

  /** The prefix a rule's rewrite strips is the path of the match it was compiled for. */
  lemma {:induction false} PrefixOfMatch(filters: seq<RouteFilter>, matched: string)
    ensures var rw := CompileRewrite(filters, matched);
            rw.Some? && rw.value.ReplacePrefix? ==> rw.value.prefix == TrimEnd(matched, '/')
  {
    if filters != [] { PrefixOfMatch(filters[..|filters| - 1], matched); }
  }

  /** A trimmed path that is a prefix of the root is empty. */
  lemma TrimmedRoot(path: string)
    requires TrimEnd(path, '/') <= "/"
    ensures TrimEnd(path, '/') == ""
  {
  }

  /** What a prefix rewrite makes of the path of a matched request, an empty path included. */
  lemma RewrittenPath(path: string, kind: PathMatch, replacement: string, p: string)
    requires !BaseOf(path).1 && PathRank(path, kind, CleanPath(p)).Some?
    ensures TrimEnd(path, '/') <= p
    ensures var stem, rest := TrimEnd(replacement, '/'), p[|TrimEnd(path, '/')|..];
            Rewritten(Some(PrefixRewrite(path, replacement)), p) == if stem == "" && rest == "" then "/" else stem + rest
  {
    if p == "" {
      PrefixMatchedStrips(path, kind, "/");
      TrimmedRoot(path);
      assert TrimEnd(replacement, '/') + "" == TrimEnd(replacement, '/');
    } else {
      RewriteComposes(path, kind, replacement, p);
    }
  }

  /** The part of a target behind its path: nothing, or a question mark and the query. */
  function QueryOf(target: string): string {
    target[IndexOf(target, '?')..]
  }

  /** A target is its path, up to the first question mark, and the rest. */
  lemma TargetParts(target: string)
    ensures Connection.PathOf(target) + QueryOf(target) == target
    ensures '?' !in Connection.PathOf(target) && (QueryOf(target) == "" || QueryOf(target)[0] == '?')
  {
    var i := IndexOf(target, '?');
    assert target[..i] + target[i..] == target;
  }

  /** Routing looks at the path only, and a query goes upstream as it came. */
  lemma QueryKept(p: string, q: string, rewrite: Option<UrlRewrite>)
    requires '?' !in p
    ensures Connection.PathOf(p + "?" + q) == p
    ensures Connection.ForwardTarget(rewrite, p + "?" + q) == Rewritten(rewrite, p) + "?" + q
    ensures Connection.ForwardTarget(rewrite, p) == Rewritten(rewrite, p)
  {
    var target := p + "?" + q;
    assert target[|p|] == '?';
    forall i | 0 <= i < |p| ensures target[i] != '?' { assert target[i] == p[i] && p[i] in p; }
    assert IndexOf(target, '?') == |p|;
    assert target[..|p|] == p && target[|p|..] == "?" + q;
    assert Rewritten(rewrite, p) + ("?" + q) == Rewritten(rewrite, p) + "?" + q;
    assert forall i :: 0 <= i < |p| ==> p[i] in p;
    assert IndexOf(p, '?') == |p| && p[..|p|] == p && p[|p|..] == "";
    assert Rewritten(rewrite, p) + "" == Rewritten(rewrite, p);
  }

  /** What a rule sends upstream for a request its spec matched. */
  ghost predicate SentAs(rule: Rule, spec: RouteSpec, target: string, sent: string) {
    var p := Connection.PathOf(target);
    match CompileRewrite(rule.filters, spec.path)
    case None => sent == target
    case Some(ReplaceFull(full)) => sent == full + QueryOf(target)
    case Some(ReplacePrefix(_, replacement)) =>
      !BaseOf(spec.path).1 ==>
        && TrimEnd(spec.path, '/') <= p
        && var stem, rest := TrimEnd(replacement, '/'), p[|TrimEnd(spec.path, '/')|..];
           sent == (if stem == "" && rest == "" then "/" else stem + rest) + QueryOf(target)
  }

  lemma RuleSends(rule: Rule, spec: RouteSpec, name: Option<string>, target: string)
    requires spec.target.rewrite == CompileRewrite(rule.filters, spec.path)
    requires RankOf(spec, name, CleanPath(Connection.PathOf(target))).Some?
    ensures SentAs(rule, spec, target, Connection.ForwardTarget(spec.target.rewrite, target))
  {
    PrefixOfMatch(rule.filters, spec.path);
    var rw := spec.target.rewrite;
    if rw.Some? && rw.value.ReplacePrefix? && !BaseOf(spec.path).1 {
      RewrittenPath(spec.path, spec.pathMatch, rw.value.replacement, Connection.PathOf(target));
    }
  }

  /**
   * End to end: whatever a table compiled from the cluster state finds for a request
   * comes from a rule of an attached route that matches it, and what is sent upstream
   * is that rule's doing. Without a rewrite the target goes as it came; a full
   * replacement keeps only the query; a prefix replacement of a match without the
   * star shorthand is the trimmed replacement, the unmatched remainder and the query.
   */
  lemma ForwardsByRule(cfg: Config, st: ClusterState, order: seq<Key>, host: Option<string>, target: string)
    returns (spec: RouteSpec, k: Key, ruleIdx: nat)
    requires Enumerates(order, st)
    requires TieredLookup(TableOf(SpecsOf(cfg, st, order)), host, Connection.PathOf(target)).Some?
    ensures ComesFrom(cfg, st, spec, k, ruleIdx)
    ensures var found := TieredLookup(TableOf(SpecsOf(cfg, st, order)), host, Connection.PathOf(target)).value;
            && found.target == spec.target
            && SentAs(st.routes[k].rules[ruleIdx], spec, target, Connection.ForwardTarget(found.target.rewrite, target))
  {
    var found := TieredLookup(TableOf(SpecsOf(cfg, st, order)), host, Connection.PathOf(target)).value;
    LookupIsOurs(cfg, st, order, host, Connection.PathOf(target));
    spec, k, ruleIdx :| ComesFrom(cfg, st, spec, k, ruleIdx) && spec.target == found.target
                        && RankOf(spec, NameOf(host), CleanPath(Connection.PathOf(target))).Some?;
    RuleSends(st.routes[k].rules[ruleIdx], spec, NameOf(host), target);
  }
}
