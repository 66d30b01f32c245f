/**
 * The ignore chain that prunes the crawl frontier (`get_and_save_json`): each
 * discovered API reference is tested against the rules in order and skipped
 * as soon as one rule's predicate, after its `not` flag, is true.
 */
module IgnoreRules {
  import opened Strings

  /** The rule's `type`: `in`, `startswith`, `endswith`, or any other string. */
  datatype Kind = InKind | PrefixKind | SuffixKind | Unrecognised(name: string)

  datatype IgnoreRule = IgnoreRule(kind: Kind, negate: bool, pattern: string)

  /**
   * The value the chain assigns to `skip` for one rule. A rule of an
   * unrecognised type assigns nothing, and `skip` is still false there
   * because the chain stops at the first true value.
   */
  predicate Fires(rule: IgnoreRule, reference: string) {
    match rule.kind
    case InKind => Contains(reference, rule.pattern) != rule.negate
    case PrefixKind => StartsWith(reference, rule.pattern) != rule.negate
    case SuffixKind => EndsWith(reference, rule.pattern) != rule.negate
    case Unrecognised(_) => false
  }

  /** The reference is skipped when some rule fires. */
  predicate Ignored(reference: string, rules: seq<IgnoreRule>) {
    exists i :: 0 <= i < |rules| && Fires(rules[i], reference)
  }

  /**
   * The chain as the crawler runs it: assign `skip` from each rule in turn
   * and stop at the first rule that sets it. `decidedBy` is the index of that
   * rule, or `|rules|` when the reference is kept.
   */
  method ShouldSkip(reference: string, rules: seq<IgnoreRule>) returns (skip: bool, decidedBy: nat)
    ensures skip <==> Ignored(reference, rules)
    ensures decidedBy <= |rules|
    ensures skip <==> decidedBy < |rules|
    ensures skip ==> Fires(rules[decidedBy], reference)
    ensures forall j :: 0 <= j < decidedBy ==> !Fires(rules[j], reference)
  {
    skip := false;
    decidedBy := 0;
    while decidedBy < |rules|
      invariant decidedBy <= |rules|
      invariant forall j :: 0 <= j < decidedBy ==> !Fires(rules[j], reference)
    {
      var rule := rules[decidedBy];
      match rule.kind {
        case InKind =>
          if rule.negate {
            skip := !Contains(reference, rule.pattern);
          } else {
            skip := Contains(reference, rule.pattern);
          }
        case PrefixKind =>
          if rule.negate {
            skip := !StartsWith(reference, rule.pattern);
          } else {
            skip := StartsWith(reference, rule.pattern);
          }
        case SuffixKind =>
          if rule.negate {
            skip := !EndsWith(reference, rule.pattern);
          } else {
            skip := EndsWith(reference, rule.pattern);
          }
        case Unrecognised(_) =>
      }
      if skip {
        break;
      }
      decidedBy := decidedBy + 1;
    }
  }

  /**
   * The chain only ever answers "skip" or "keep on to the next rule", so the
   * order of the rules decides how many are evaluated, never the verdict: any
   * rearrangement of the same rules skips exactly the same references.
   */
  lemma OrderIrrelevant(reference: string, rules: seq<IgnoreRule>, reordered: seq<IgnoreRule>)
    requires multiset(rules) == multiset(reordered)
    ensures Ignored(reference, rules) <==> Ignored(reference, reordered)
  {
    if Ignored(reference, rules) {
      var i :| 0 <= i < |rules| && Fires(rules[i], reference);
      assert rules[i] in multiset(reordered);
      var j :| 0 <= j < |reordered| && reordered[j] == rules[i];
    }
    if Ignored(reference, reordered) {
      var j :| 0 <= j < |reordered| && Fires(reordered[j], reference);
      assert reordered[j] in multiset(rules);
      var i :| 0 <= i < |rules| && rules[i] == reordered[j];
    }
  }

  /** Rules after one that fires are irrelevant. */
  lemma FiringRuleDecides(reference: string, rules: seq<IgnoreRule>, i: nat, rest: seq<IgnoreRule>)
    requires i < |rules| && Fires(rules[i], reference)
    ensures Ignored(reference, rules[..i + 1] + rest)
  {
    assert (rules[..i + 1] + rest)[i] == rules[i];
  }

  /**
   * The ignore table of the exporter for one repository: patches, diffs,
   * sources, file histories and downloads of the repository, anything outside
   * it, its issue import/export and hook endpoints, and the action endpoints
   * ending in approve, decline, merge, vote and watch.
   */
  function ExporterIgnoreRules(owner: string, repo: string): (rules: seq<IgnoreRule>)
    ensures |rules| == 14
  {
    var base := "repositories/" + owner + "/" + repo;
    [ IgnoreRule(InKind, false, base + "/patch"),
      IgnoreRule(InKind, false, base + "/diff"),
      IgnoreRule(InKind, false, base + "/src"),
      IgnoreRule(InKind, false, base + "/filehistory"),
      IgnoreRule(InKind, false, base + "/downloads"),
      IgnoreRule(PrefixKind, true, base),
      IgnoreRule(PrefixKind, false, base + "/issues/import"),
      IgnoreRule(PrefixKind, false, base + "/issues/export"),
      IgnoreRule(PrefixKind, false, base + "/hooks"),
      IgnoreRule(SuffixKind, false, "/approve"),
      IgnoreRule(SuffixKind, false, "/decline"),
      IgnoreRule(SuffixKind, false, "/merge"),
      IgnoreRule(SuffixKind, false, "/vote"),
      IgnoreRule(SuffixKind, false, "/watch") ]
  }

  /**
   * What the exporter's table skips, stated directly: anything outside the
   * repository; any reference mentioning its patches, diffs, sources, file
   * histories or downloads; its issue import/export and hook endpoints; and
   * the five action endpoints.
   */
  predicate ExporterSkips(owner: string, repo: string, reference: string) {
    var base := "repositories/" + owner + "/" + repo;
    || !StartsWith(reference, base)
    || Contains(reference, base + "/patch") || Contains(reference, base + "/diff")
    || Contains(reference, base + "/src") || Contains(reference, base + "/filehistory")
    || Contains(reference, base + "/downloads")
    || StartsWith(reference, base + "/issues/import") || StartsWith(reference, base + "/issues/export")
    || StartsWith(reference, base + "/hooks")
    || EndsWith(reference, "/approve") || EndsWith(reference, "/decline") || EndsWith(reference, "/merge")
    || EndsWith(reference, "/vote") || EndsWith(reference, "/watch")
  }

  /** The exporter's table skips exactly the references `ExporterSkips` names. */
  lemma ExporterIgnoreRulesExactly(owner: string, repo: string, reference: string)
    ensures Ignored(reference, ExporterIgnoreRules(owner, repo)) <==> ExporterSkips(owner, repo, reference)
  {
    var rules := ExporterIgnoreRules(owner, repo);
    var k := FirstSkipReason(owner, repo, reference);
    if k < 14 {
      assert Fires(rules[k], reference);
    }
  }

  /** The index of the first rule of the exporter's table that fires, or 14. */
  function FirstSkipReason(owner: string, repo: string, reference: string): (k: nat)
    ensures k <= 14
    ensures k < 14 <==> ExporterSkips(owner, repo, reference)
    ensures k < 14 ==> Fires(ExporterIgnoreRules(owner, repo)[k], reference)
  {
    var base := "repositories/" + owner + "/" + repo;
    if Contains(reference, base + "/patch") then 0
    else if Contains(reference, base + "/diff") then 1
    else if Contains(reference, base + "/src") then 2
    else if Contains(reference, base + "/filehistory") then 3
    else if Contains(reference, base + "/downloads") then 4
    else if !StartsWith(reference, base) then 5
    else if StartsWith(reference, base + "/issues/import") then 6
    else if StartsWith(reference, base + "/issues/export") then 7
    else if StartsWith(reference, base + "/hooks") then 8
    else if EndsWith(reference, "/approve") then 9
    else if EndsWith(reference, "/decline") then 10
    else if EndsWith(reference, "/merge") then 11
    else if EndsWith(reference, "/vote") then 12
    else if EndsWith(reference, "/watch") then 13
    else 14
  }

  /** The exporter never follows a reference outside the repository being exported. */
  lemma OutsideRepositoryIgnored(owner: string, repo: string, reference: string)
    requires !StartsWith(reference, "repositories/" + owner + "/" + repo)
    ensures Ignored(reference, ExporterIgnoreRules(owner, repo))
  {
    assert Fires(ExporterIgnoreRules(owner, repo)[5], reference);
  }

  /**
   * With a negated prefix rule for repository A first and a suffix rule for
   * `/watch` second, a reference into repository B is skipped by the first
   * rule, whatever the second says.
   */
  lemma NegatedPrefixExample()
    ensures var rules := [IgnoreRule(PrefixKind, true, "repositories/A"), IgnoreRule(SuffixKind, false, "/watch")];
      Fires(rules[0], "repositories/B/issues/1") && Ignored("repositories/B/issues/1", rules)
  {
    var rules := [IgnoreRule(PrefixKind, true, "repositories/A"), IgnoreRule(SuffixKind, false, "/watch")];
    assert "repositories/B/issues/1"[13] != "repositories/A"[13];
    assert Fires(rules[0], "repositories/B/issues/1");
  }
}
