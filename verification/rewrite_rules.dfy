/**
 * The query-parameter rewrite engine of the exporter (`rewrite_url`): an
 * ordered list of rules, each guarded by endpoint matchers, each carrying an
 * ordered list of conditional parameter edits. Every matching rule applies,
 * in order, and later edits see the result of earlier ones.
 */
module RewriteRules {
  import opened Wrappers

  // ---------------------------------------------------------------------------
  // Query parameters: an insertion-ordered dictionary

  /** A parameter value: Python's `None`, an `int`, a `str` or a list of `str`. */
  datatype Value = Null | Int(i: int) | Str(s: string) | List(items: seq<string>)

  datatype Param = Param(key: string, value: Value)

  /** A Python dict from names to values, in insertion order. */
  type Params = seq<Param>

  predicate HasKey(ps: Params, k: string) {
    exists i :: 0 <= i < |ps| && ps[i].key == k
  }

  /** `ps.get(k)`: the value of the first entry for `k`. */
  function Lookup(ps: Params, k: string): (r: Option<Value>)
    ensures r.None? <==> !HasKey(ps, k)
    ensures r.Some? ==> Param(k, r.value) in ps
  {
    if ps == [] then None
    else if ps[0].key == k then Some(ps[0].value)
    else
      assert forall i :: 1 <= i < |ps| ==> ps[i] == ps[1..][i - 1];
      Lookup(ps[1..], k)
  }

  /** The dictionary's keys in insertion order. */
  function Keys(ps: Params): (ks: seq<string>)
    ensures |ks| == |ps| && forall i :: 0 <= i < |ps| ==> ks[i] == ps[i].key
  {
    if ps == [] then [] else [ps[0].key] + Keys(ps[1..])
  }

  predicate UniqueKeys(ps: Params) {
    forall i, j :: 0 <= i < j < |ps| ==> ps[i].key != ps[j].key
  }

  /** Overwrite the value of every entry for `k`, keeping the order. */
  function Overwrite(ps: Params, k: string, v: Value): (r: Params)
    ensures Keys(r) == Keys(ps)
    ensures Lookup(r, k) == (if HasKey(ps, k) then Some(v) else None)
    ensures forall k' :: k' != k ==> Lookup(r, k') == Lookup(ps, k')
  {
    if ps == [] then []
    else [if ps[0].key == k then Param(k, v) else ps[0]] + Overwrite(ps[1..], k, v)
  }

  lemma {:induction false} LookupAppend(ps: Params, x: Param, k: string)
    ensures Lookup(ps + [x], k) ==
      (if HasKey(ps, k) then Lookup(ps, k) else if x.key == k then Some(x.value) else None)
  {
    if ps != [] {
      assert (ps + [x])[1..] == ps[1..] + [x];
      LookupAppend(ps[1..], x, k);
    }
  }

  /** `ps[k] = v`: overwrite in place when present, otherwise insert at the end. */
  function Set(ps: Params, k: string, v: Value): (r: Params)
    ensures Lookup(r, k) == Some(v)
    ensures forall k' :: k' != k ==> Lookup(r, k') == Lookup(ps, k')
    ensures Keys(r) == if HasKey(ps, k) then Keys(ps) else Keys(ps) + [k]
  {
    if HasKey(ps, k) then Overwrite(ps, k, v)
    else
      InsertAtEnd(ps, k, v);
      ps + [Param(k, v)]
  }

  /** Inserting an absent key at the end makes it map to its value and leaves every other key alone. */
  lemma InsertAtEnd(ps: Params, k: string, v: Value)
    requires !HasKey(ps, k)
    ensures Lookup(ps + [Param(k, v)], k) == Some(v)
    ensures forall k' :: k' != k ==> Lookup(ps + [Param(k, v)], k') == Lookup(ps, k')
    ensures Keys(ps + [Param(k, v)]) == Keys(ps) + [k]
  {
    LookupAppend(ps, Param(k, v), k);
    forall k' | k' != k
      ensures Lookup(ps + [Param(k, v)], k') == Lookup(ps, k')
    {
      LookupAppend(ps, Param(k, v), k');
    }
  }

  /** `del ps[k]`. */
  function Delete(ps: Params, k: string): (r: Params)
    ensures !HasKey(r, k)
    ensures forall k' :: k' != k ==> Lookup(r, k') == Lookup(ps, k')
    ensures forall i :: 0 <= i < |r| ==> r[i] in ps
  {
    if ps == [] then []
    else if ps[0].key == k then Delete(ps[1..], k)
    else [ps[0]] + Delete(ps[1..], k)
  }

  // ---------------------------------------------------------------------------
  // Rules

  /** An endpoint matcher: a literal endpoint, or a compiled regular expression
    * whose `findall` over the endpoint is non-empty exactly when `found` holds. */
  datatype Matcher = Literal(endpoint: string) | Pattern(found: string -> bool)

  /** One conditional edit: `params_match` and `params_to_update`. */
  datatype Rewrite = Rewrite(paramsMatch: Params, paramsToUpdate: Params)

  /** `endpoint_match` and `rewrites`. */
  datatype Rule = Rule(endpointMatch: seq<Matcher>, rewrites: seq<Rewrite>)

  predicate MatcherHolds(m: Matcher, endpoint: string) {
    match m
    case Literal(e) => endpoint == e
    case Pattern(found) => found(endpoint)
  }

  predicate EndpointMatches(endpoint: string, ms: seq<Matcher>) {
    exists i :: 0 <= i < |ms| && MatcherHolds(ms[i], endpoint)
  }

  /**
   * One entry of `params_match`: a `None` expectation holds when the
   * parameter is absent or is `None`; any other expectation holds when the
   * parameter is present with exactly that value.
   */
  predicate ConditionHolds(ps: Params, name: string, expected: Value) {
    if expected == Null then Lookup(ps, name) == None || Lookup(ps, name) == Some(Null)
    else Lookup(ps, name) == Some(expected)
  }

  predicate AllConditionsHold(ps: Params, conditions: Params) {
    forall i :: 0 <= i < |conditions| ==> ConditionHolds(ps, conditions[i].key, conditions[i].value)
  }

  /**
   * One entry of `params_to_update`: `None` deletes a present key; anything
   * else, and `None` for an absent key, is assigned. No other key changes.
   */
  function Update(ps: Params, name: string, v: Value): (r: Params)
    ensures Lookup(r, name) == (if v == Null && HasKey(ps, name) then None else Some(v))
    ensures forall k :: k != name ==> Lookup(r, k) == Lookup(ps, k)
  {
    if v == Null && HasKey(ps, name) then Delete(ps, name) else Set(ps, name, v)
  }

  function Updates(ps: Params, us: Params): Params {
    if us == [] then ps
    else Update(Updates(ps, us[..|us| - 1]), us[|us| - 1].key, us[|us| - 1].value)
  }

  function ApplyRewrite(ps: Params, rw: Rewrite): Params {
    if AllConditionsHold(ps, rw.paramsMatch) then Updates(ps, rw.paramsToUpdate) else ps
  }

  function ApplyRewrites(ps: Params, rws: seq<Rewrite>): Params {
    if rws == [] then ps
    else ApplyRewrite(ApplyRewrites(ps, rws[..|rws| - 1]), rws[|rws| - 1])
  }

  function ApplyRule(ps: Params, endpoint: string, rule: Rule): Params {
    if EndpointMatches(endpoint, rule.endpointMatch) then ApplyRewrites(ps, rule.rewrites) else ps
  }

  /** The parameters after every rule, in order. */
  function ApplyRules(ps: Params, endpoint: string, rules: seq<Rule>): Params {
    if rules == [] then ps
    else ApplyRule(ApplyRules(ps, endpoint, rules[..|rules| - 1]), endpoint, rules[|rules| - 1])
  }

  // ---------------------------------------------------------------------------
  // rewrite_url

  /**
   * `BitBucketExport.rewrite_url`: work on a copy of the parameters; for each
   * rule whose matchers accept the endpoint, run each rewrite whose
   * conditions all hold, applying its updates in order. The endpoint comes
   * back as it went in.
   */
  method RewriteUrl(endpoint: string, params: Params, rules: seq<Rule>)
    returns (newEndpoint: string, newParams: Params)
    ensures newEndpoint == endpoint
    ensures newParams == ApplyRules(params, endpoint, rules)
  {
    var ps := params;
    for r := 0 to |rules|
      invariant ps == ApplyRules(params, endpoint, rules[..r])
    {
      assert rules[..r + 1][..r] == rules[..r];
      var rule := rules[r];
      var endpointMatches := FindEndpointMatch(endpoint, rule.endpointMatch);
      if endpointMatches {
        ps := RunRewrites(ps, rule.rewrites);
      }
    }
    assert rules[..|rules|] == rules;
    newEndpoint, newParams := endpoint, ps;
  }

  /** The loop over a matching rule's `rewrites`, each run when its conditions all hold. */
  method RunRewrites(params: Params, rewrites: seq<Rewrite>) returns (ps: Params)
    ensures ps == ApplyRewrites(params, rewrites)
  {
    ps := params;
    for w := 0 to |rewrites|
      invariant ps == ApplyRewrites(params, rewrites[..w])
    {
      assert rewrites[..w + 1][..w] == rewrites[..w];
      var rewrite := rewrites[w];
      var doRewrite := CheckConditions(ps, rewrite.paramsMatch);
      if doRewrite {
        ps := ApplyUpdates(ps, rewrite.paramsToUpdate);
      }
    }
    assert rewrites[..|rewrites|] == rewrites;
  }

  /** The inner loop over `endpoint_match`, stopping at the first matcher that accepts. */
  method FindEndpointMatch(endpoint: string, ms: seq<Matcher>) returns (matches: bool)
    ensures matches <==> EndpointMatches(endpoint, ms)
  {
    matches := false;
    var m := 0;
    while m < |ms|
      invariant 0 <= m <= |ms|
      invariant forall j :: 0 <= j < m ==> !MatcherHolds(ms[j], endpoint)
    {
      if MatcherHolds(ms[m], endpoint) {
        matches := true;
        break;
      }
      m := m + 1;
    }
  }

  /** The inner loop over `params_match`, stopping at the first condition that fails. */
  method CheckConditions(ps: Params, conditions: Params) returns (ok: bool)
    ensures ok <==> AllConditionsHold(ps, conditions)
  {
    ok := true;
    var c := 0;
    while c < |conditions|
      invariant 0 <= c <= |conditions|
      invariant forall j :: 0 <= j < c ==> ConditionHolds(ps, conditions[j].key, conditions[j].value)
    {
      var name, expected := conditions[c].key, conditions[c].value;
      if expected == Null {
        if HasKey(ps, name) && Lookup(ps, name) != Some(expected) {
          ok := false;
          break;
        }
      } else {
        if !HasKey(ps, name) || Lookup(ps, name) != Some(expected) {
          ok := false;
          break;
        }
      }
      c := c + 1;
    }
  }

  /** The inner loop over `params_to_update`: delete on `None` when present, assign otherwise. */
  method ApplyUpdates(params: Params, us: Params) returns (ps: Params)
    ensures ps == Updates(params, us)
  {
    ps := params;
    for u := 0 to |us|
      invariant ps == Updates(params, us[..u])
    {
      assert us[..u + 1][..u] == us[..u];
      var name, v := us[u].key, us[u].value;
      if v == Null && HasKey(ps, name) {
        ps := Delete(ps, name);
      } else {
        ps := Set(ps, name, v);
      }
    }
    assert us[..|us|] == us;
  }

  // ---------------------------------------------------------------------------
  // Properties

  /** Rules compose: applying `r1 + r2` is applying `r1` and then `r2`. */
  lemma {:induction false} RulesCumulative(ps: Params, endpoint: string, r1: seq<Rule>, r2: seq<Rule>)
    ensures ApplyRules(ps, endpoint, r1 + r2) == ApplyRules(ApplyRules(ps, endpoint, r1), endpoint, r2)
  {
    if r2 == [] {
      assert r1 + r2 == r1;
    } else {
      assert (r1 + r2)[..|r1 + r2| - 1] == r1 + r2[..|r2| - 1];
      RulesCumulative(ps, endpoint, r1, r2[..|r2| - 1]);
    }
  }

  /** Rules whose matchers all reject the endpoint change nothing. */
  lemma {:induction false} UnmatchedRulesKeepParams(ps: Params, endpoint: string, rules: seq<Rule>)
    requires forall i :: 0 <= i < |rules| ==> !EndpointMatches(endpoint, rules[i].endpointMatch)
    ensures ApplyRules(ps, endpoint, rules) == ps
  {
    if rules != [] {
      UnmatchedRulesKeepParams(ps, endpoint, rules[..|rules| - 1]);
    }
  }

  /** A rewrite guarded by "`name` is absent or `None`" fills in a missing default and keeps a given one. */
  lemma DefaultRewrite(ps: Params, name: string, v: Value)
    requires v != Null
    ensures Lookup(ApplyRewrite(ps, Rewrite([Param(name, Null)], [Param(name, v)])), name) ==
      (if Lookup(ps, name) == None || Lookup(ps, name) == Some(Null) then Some(v) else Lookup(ps, name))
  {
    var rw := Rewrite([Param(name, Null)], [Param(name, v)]);
    assert rw.paramsToUpdate[..0] == [];
    assert Updates(ps, rw.paramsToUpdate) == Set(ps, name, v);
    assert rw.paramsMatch[0] == Param(name, Null);
    assert AllConditionsHold(ps, rw.paramsMatch) <==> ConditionHolds(ps, name, Null);
  }

  /** A rule for `endpoint` that defaults an absent `name` to `v` appends that entry. */
  lemma DefaultAppends(ps: Params, endpoint: string, name: string, v: Value)
    requires v != Null && !HasKey(ps, name)
    ensures ApplyRule(ps, endpoint, Rule([Literal(endpoint)], [Rewrite([Param(name, Null)], [Param(name, v)])]))
         == ps + [Param(name, v)]
  {
    var rw := Rewrite([Param(name, Null)], [Param(name, v)]);
    var rule := Rule([Literal(endpoint)], [rw]);
    assert MatcherHolds(rule.endpointMatch[0], endpoint);
    assert rule.rewrites[..0] == [];
    assert ApplyRewrites(ps, rule.rewrites) == ApplyRewrite(ps, rw);
    assert AllConditionsHold(ps, rw.paramsMatch) by {
      assert rw.paramsMatch[0] == Param(name, Null);
    }
    assert rw.paramsToUpdate[..0] == [];
    assert Updates(ps, rw.paramsToUpdate) == Set(ps, name, v);
  }

  /**
   * Two rules matching the same endpoint, one defaulting `pagelen` to 100 and
   * the other defaulting `page` to 1, both take effect on a query that has
   * neither.
   */
  lemma PageDefaultsAccumulate(endpoint: string)
    ensures var rules := [
        Rule([Literal(endpoint)], [Rewrite([Param("pagelen", Null)], [Param("pagelen", Int(100))])]),
        Rule([Literal(endpoint)], [Rewrite([Param("page", Null)], [Param("page", Int(1))])])
      ];
      ApplyRules([], endpoint, rules) == [Param("pagelen", Int(100)), Param("page", Int(1))]
  {
    var r1 := Rule([Literal(endpoint)], [Rewrite([Param("pagelen", Null)], [Param("pagelen", Int(100))])]);
    var r2 := Rule([Literal(endpoint)], [Rewrite([Param("page", Null)], [Param("page", Int(1))])]);
    var p1 := [Param("pagelen", Int(100))];
    DefaultAppends([], endpoint, "pagelen", Int(100));
    assert [r1, r2][..1] == [r1] && [r1][..0] == [];
    assert ApplyRules([], endpoint, [r1]) == p1;
    assert "page" != "pagelen";
    assert !HasKey(p1, "page");
    DefaultAppends(p1, endpoint, "page", Int(1));
  }
}
