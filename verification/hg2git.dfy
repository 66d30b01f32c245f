/**
 * `BbToGh`: the mapping from Mercurial changesets to the git commits that
 * replaced them, built by matching the two logs on (date, description), and
 * the lookup of a (possibly abbreviated) Mercurial node or revision number.
 */
module Hg2Git {
  import opened Wrappers
  import opened Strings

  /**
   * An entry of the Mercurial log. The date is the instant `dateutil`
   * parses out of the log's date text; the parser is not part of this model.
   */
  datatype HgLog = HgLog(node: string, date: int, desc: string, revnum: int)

  /** An entry of the git log, its date parsed the same way. */
  datatype GitLog = GitLog(node: string, date: int, desc: string)

  /** The key the two logs are matched on: the date and the stripped description. */
  datatype LogKey = LogKey(date: int, desc: string)

  function HgKey(h: HgLog): LogKey { LogKey(h.date, Strip(h.desc)) }
  function GitKey(g: GitLog): LogKey { LogKey(g.date, Strip(g.desc)) }

  // ---------------------------------------------------------------------------
  // What `__init__` builds, one log entry at a time

  /** `key_to_hg`: the stripped nodes of each key, in log order. */
  function KeyToHg(hgLogs: seq<HgLog>): map<LogKey, seq<string>> {
    if hgLogs == [] then map[]
    else
      var m := KeyToHg(hgLogs[..|hgLogs| - 1]);
      var h := hgLogs[|hgLogs| - 1];
      m[HgKey(h) := (if HgKey(h) in m then m[HgKey(h)] else []) + [Strip(h.node)]]
  }

  /** `hg_dates`: each node's date (the last entry wins). */
  function HgDates(hgLogs: seq<HgLog>): map<string, int> {
    if hgLogs == [] then map[]
    else
      var h := hgLogs[|hgLogs| - 1];
      HgDates(hgLogs[..|hgLogs| - 1])[Strip(h.node) := h.date]
  }

  /** `hg_revnum_to_hg_node`: each revision number's node (the last entry wins). */
  function RevnumToNode(hgLogs: seq<HgLog>): map<int, string> {
    if hgLogs == [] then map[]
    else
      var h := hgLogs[|hgLogs| - 1];
      RevnumToNode(hgLogs[..|hgLogs| - 1])[h.revnum := Strip(h.node)]
  }

  /** `hg_to_git` after the first loop: every node, not yet matched. */
  function Unmatched(hgLogs: seq<HgLog>): map<string, Option<string>> {
    if hgLogs == [] then map[]
    else Unmatched(hgLogs[..|hgLogs| - 1])[Strip(hgLogs[|hgLogs| - 1].node) := None]
  }

  /** The stripped nodes of the log, in order and with repetitions. */
  function HgNodes(hgLogs: seq<HgLog>): seq<string> {
    if hgLogs == [] then [] else HgNodes(hgLogs[..|hgLogs| - 1]) + [Strip(hgLogs[|hgLogs| - 1].node)]
  }

  /** The inner loop of the git pass: each node of a key gets the git commit. */
  function MatchNodes(hgToGit: map<string, Option<string>>, nodes: seq<string>, gitNode: string): (res: map<string, Option<string>>)
    ensures hgToGit.Keys <= res.Keys
  {
    if nodes == [] then hgToGit
    else MatchNodes(hgToGit, nodes[..|nodes| - 1], gitNode)[nodes[|nodes| - 1] := Some(gitNode)]
  }

  /** The git pass: a later git entry with the same key overrides an earlier one. */
  function MatchGit(hgToGit: map<string, Option<string>>, keyToHg: map<LogKey, seq<string>>, gitLogs: seq<GitLog>): (res: map<string, Option<string>>)
    ensures hgToGit.Keys <= res.Keys
  {
    if gitLogs == [] then hgToGit
    else
      var m := MatchGit(hgToGit, keyToHg, gitLogs[..|gitLogs| - 1]);
      var g := gitLogs[|gitLogs| - 1];
      if GitKey(g) in keyToHg then MatchNodes(m, keyToHg[GitKey(g)], Strip(g.node)) else m
  }

  // ---------------------------------------------------------------------------
  // `sorted(...)` of the node set

  predicate StrictlySorted(a: seq<string>) {
    forall i, j :: 0 <= i < j < |a| ==> Less(a[i], a[j])
  }

  /** Insertion of a node into a strictly sorted list, leaving it alone when it is already there. */
  function InsertSorted(a: seq<string>, x: string): (res: seq<string>)
    ensures forall y :: y in res <==> y in a || y == x
  {
    if a == [] then [x]
    else if Less(x, a[0]) then [x] + a
    else if x == a[0] then a
    else [a[0]] + InsertSorted(a[1..], x)
  }

  lemma {:induction false} InsertSortedKeepsOrder(a: seq<string>, x: string)
    requires StrictlySorted(a)
    ensures StrictlySorted(InsertSorted(a, x))
  {
    if a != [] && !Less(x, a[0]) && x != a[0] {
      var rest := InsertSorted(a[1..], x);
      InsertSortedKeepsOrder(a[1..], x);
      LessTotal(x, a[0]);
      var res := InsertSorted(a, x);
      assert res == [a[0]] + rest;
      forall i, j | 0 <= i < j < |res|
        ensures Less(res[i], res[j])
      {
        if i == 0 {
          var y := rest[j - 1];
          assert y in rest;
          if y != x {
            var k :| 0 <= k < |a[1..]| && a[1..][k] == y;
            assert a[k + 1] == y;
          }
        } else {
          assert res[i] == rest[i - 1] && res[j] == rest[j - 1];
        }
      }
    } else if a != [] && Less(x, a[0]) {
      var res := InsertSorted(a, x);
      forall i, j | 0 <= i < j < |res|
        ensures Less(res[i], res[j])
      {
        if i == 0 && j > 1 {
          LessTransitive(x, a[0], a[j - 1]);
        }
      }
    }
  }

  /** `sorted(nodes)` of the distinct nodes. */
  function SortNodes(nodes: seq<string>): seq<string> {
    if nodes == [] then [] else InsertSorted(SortNodes(nodes[..|nodes| - 1]), nodes[|nodes| - 1])
  }

  /** The sorted node list is strictly increasing and holds exactly the given nodes. */
  lemma {:induction false} SortNodesSpec(nodes: seq<string>)
    ensures StrictlySorted(SortNodes(nodes))
    ensures forall y :: y in SortNodes(nodes) <==> y in nodes
  {
    if nodes != [] {
      var init := nodes[..|nodes| - 1];
      SortNodesSpec(init);
      InsertSortedKeepsOrder(SortNodes(init), nodes[|nodes| - 1]);
      assert nodes == init + [nodes[|nodes| - 1]];
    }
  }

  lemma StrictlySortedIsSorted(a: seq<string>)
    requires StrictlySorted(a)
    ensures Sorted(a)
  {
    forall i, j | 0 <= i < j < |a|
      ensures LessEq(a[i], a[j])
    {
      LessTotal(a[i], a[j]);
    }
  }

  // ---------------------------------------------------------------------------
  // The built object

  /**
   * The state of a `BbToGh` object. After `__init__` it is only read, so it
   * is held as a value.
   */
  datatype BbToGh = BbToGh(
    bbUrl: string,
    ghUrl: string,
    hgToGit: map<string, Option<string>>,
    hgDates: map<string, int>,
    revnumToNode: map<int, string>,
    sortedNodes: seq<string>)
  {
    /** `sorted_nodes` is the strictly sorted key set of `hg_to_git`. */
    ghost predicate Valid() {
      && StrictlySorted(sortedNodes)
      && forall n :: n in sortedNodes <==> n in hgToGit
    }

    /** `find_hg_node`: the node at the `bisect_left` position, when it starts with the query. */
    function FindHgNode(hgNode: string): (r: Option<string>)
      ensures r.Some? ==> r.value in sortedNodes && StartsWith(r.value, hgNode)
    {
      var idx := BisectLeft(sortedNodes, hgNode);
      if idx == |sortedNodes| then None
      else if StartsWith(sortedNodes[idx], hgNode) then Some(sortedNodes[idx])
      else None
    }

    /**
     * `hgnode_to_githash` as written: an unknown node that is not a number
     * looks up `hg_to_git[None]`, and an unknown revision number looks up a
     * missing key; both raise `KeyError`.
     */
    function HgnodeToGithashAsWritten(hgNode: string): Result<Option<string>> {
      if hgNode == "tip" then Ok(None)
      else
        var full := FindHgNode(hgNode);
        if full.None? && IsDigits(hgNode) then
          var revnum := DigitsValue(hgNode);
          if revnum !in revnumToNode then Err(KeyError(hgNode))
          else
            var full2 := FindHgNode(revnumToNode[revnum]);
            if full2.None? then Ok(None) else GitOf(full2.value)
        else if full.None? then Err(KeyError("None"))
        else GitOf(full.value)
    }

    /** `hg_to_git[full_node]`. */
    function GitOf(fullNode: string): Result<Option<string>> {
      if fullNode in hgToGit then Ok(hgToGit[fullNode]) else Err(KeyError(fullNode))
    }

    /** The node a query resolves to: by prefix, or else by revision number. */
    function ResolveNode(hgNode: string): Option<string> {
      var full := FindHgNode(hgNode);
      if full.None? && IsDigits(hgNode) && DigitsValue(hgNode) in revnumToNode then
        FindHgNode(revnumToNode[DigitsValue(hgNode)])
      else full
    }

    /**
     * `hgnode_to_githash` as evidently intended: `None` for `tip`, for a
     * node that resolves to nothing, and for a node with no git commit.
     */
    function HgnodeToGithash(hgNode: string): (r: Option<string>)
      ensures r.Some? ==> hgNode != "tip"
      ensures r.Some? ==> exists n :: n in hgToGit && hgToGit[n] == r && n in sortedNodes
    {
      if hgNode == "tip" then None
      else
        match ResolveNode(hgNode)
        case None => None
        case Some(full) => if full in hgToGit then hgToGit[full] else None
    }
  }

  /** `bisect.bisect_left`: the first index whose element is not less than `x`. */
  function BisectLeft(a: seq<string>, x: string): (i: nat)
    ensures i <= |a|
    ensures forall j :: 0 <= j < i ==> Less(a[j], x)
    ensures i < |a| ==> !Less(a[i], x)
  {
    if a == [] || !Less(a[0], x) then 0 else 1 + BisectLeft(a[1..], x)
  }

  /** On a sorted list every element from the `bisect_left` index on is not less than `x`. */
  lemma BisectLeftSplits(a: seq<string>, x: string)
    requires Sorted(a)
    ensures forall j :: BisectLeft(a, x) <= j < |a| ==> LessEq(x, a[j])
  {
    var i := BisectLeft(a, x);
    forall j | i <= j < |a|
      ensures LessEq(x, a[j])
    {
      if j > i && Less(a[j], x) {
        assert LessEq(a[i], a[j]);
        LessTotal(a[i], a[j]);
        if a[i] != a[j] {
          LessTransitive(a[i], a[j], x);
        }
      }
    }
  }

  /**
   * On a sorted list the lookup is complete: when some node starts with the
   * query, it finds one (the least such node).
   */
  lemma FindHgNodeComplete(b: BbToGh, hgNode: string, k: nat)
    requires Sorted(b.sortedNodes)
    requires k < |b.sortedNodes| && StartsWith(b.sortedNodes[k], hgNode)
    ensures b.FindHgNode(hgNode).Some?
    ensures LessEq(b.FindHgNode(hgNode).value, b.sortedNodes[k])
  {
    var a := b.sortedNodes;
    var i := BisectLeft(a, hgNode);
    PrefixLessEq(hgNode, a[k]);
    assert i <= k;
    BisectLeftSplits(a, hgNode);
    if i == k {
      LessIrreflexive(a[k]);
    }
    PrefixBetween(hgNode, a[i], a[k]);
  }

  /** Whatever the query, the lookup never finds a node that does not start with it. */
  lemma FindHgNodeNone(b: BbToGh, hgNode: string)
    requires Sorted(b.sortedNodes)
    ensures b.FindHgNode(hgNode).None? <==> forall k :: 0 <= k < |b.sortedNodes| ==> !StartsWith(b.sortedNodes[k], hgNode)
  {
    if b.FindHgNode(hgNode).None? {
      forall k | 0 <= k < |b.sortedNodes|
        ensures !StartsWith(b.sortedNodes[k], hgNode)
      {
        if StartsWith(b.sortedNodes[k], hgNode) {
          FindHgNodeComplete(b, hgNode, k);
        }
      }
    } else {
      var n := b.FindHgNode(hgNode).value;
      var k :| 0 <= k < |b.sortedNodes| && b.sortedNodes[k] == n;
    }
  }

  /** `tip` resolves to nothing, and so does a node whose git commit is unknown. */
  lemma HgnodeToGithashNone(b: BbToGh, hgNode: string)
    ensures b.HgnodeToGithash("tip") == None
    ensures b.ResolveNode(hgNode).Some? && b.ResolveNode(hgNode).value in b.hgToGit && b.hgToGit[b.ResolveNode(hgNode).value] == None
      ==> b.HgnodeToGithash(hgNode) == None
    ensures hgNode != "tip" && b.ResolveNode(hgNode).Some? && b.ResolveNode(hgNode).value in b.hgToGit
      ==> b.HgnodeToGithash(hgNode) == b.hgToGit[b.ResolveNode(hgNode).value]
  {
  }

  /** Where the code as written returns, it agrees with the intended lookup. */
  lemma HgnodeToGithashAgrees(b: BbToGh, hgNode: string)
    ensures b.HgnodeToGithashAsWritten(hgNode).Ok? ==> b.HgnodeToGithash(hgNode) == b.HgnodeToGithashAsWritten(hgNode).value
  {
  }

  /** It raises exactly for an unknown non-numeric node, or an unknown revision number. */
  lemma HgnodeToGithashRaises(b: BbToGh, hgNode: string)
    requires b.Valid()
    ensures b.HgnodeToGithashAsWritten(hgNode).Err? <==>
      hgNode != "tip" && b.FindHgNode(hgNode).None? &&
      (!IsDigits(hgNode) || DigitsValue(hgNode) !in b.revnumToNode)
  {
  }

  /** A node that is not in the log, e.g. `abc` when only `def0` is known, makes the code as written raise. */
  lemma UnknownNodeRaises()
    ensures var b := BbToGh("", "", map["def0" := None], map[], map[], ["def0"]);
      && b.Valid()
      && b.HgnodeToGithashAsWritten("abc") == Err(KeyError("None"))
      && b.HgnodeToGithash("abc") == None
  {
    var b := BbToGh("", "", map["def0" := None], map[], map[], ["def0"]);
    assert Less("abc", "def0");
    assert BisectLeft(b.sortedNodes, "abc") == 0;
    assert !StartsWith("def0", "abc");
    assert !IsDigits("abc") by { assert !IsDigit('a'); }
  }

  // ---------------------------------------------------------------------------
  // `__init__`

  /**
   * `BbToGh(hg_logs, git_logs, bb_url, gh_url)`: the two loops over the logs
   * and the sorting of the nodes.
   */
  method NewBbToGh(hgLogs: seq<HgLog>, gitLogs: seq<GitLog>, bbUrl: string, ghUrl: string) returns (b: BbToGh)
    ensures b.bbUrl == RStrip(bbUrl, '/') && b.ghUrl == RStrip(ghUrl, '/')
    ensures b.hgToGit == MatchGit(Unmatched(hgLogs), KeyToHg(hgLogs), gitLogs)
    ensures b.hgDates == HgDates(hgLogs) && b.revnumToNode == RevnumToNode(hgLogs)
    ensures b.sortedNodes == SortNodes(HgNodes(hgLogs))
    ensures b.Valid()
  {
    var unmatched, hgDates, revnums, keyToHg, nodes := ReadHgLogs(hgLogs);
    var hgToGit := ReadGitLogs(unmatched, keyToHg, gitLogs);
    b := BbToGh(RStrip(bbUrl, '/'), RStrip(ghUrl, '/'), hgToGit, hgDates, revnums, SortNodes(nodes));
    BuiltIsValid(hgLogs, gitLogs, b);
  }

  lemma BuiltIsValid(hgLogs: seq<HgLog>, gitLogs: seq<GitLog>, b: BbToGh)
    requires b.hgToGit == MatchGit(Unmatched(hgLogs), KeyToHg(hgLogs), gitLogs)
    requires b.sortedNodes == SortNodes(HgNodes(hgLogs))
    ensures b.Valid()
  {
    SortNodesSpec(HgNodes(hgLogs));
    UnmatchedKeys(hgLogs);
    KeyToHgNodes(hgLogs);
    MatchGitKeys(Unmatched(hgLogs), KeyToHg(hgLogs), gitLogs);
  }

  /** The loop over the hg log. */
  method ReadHgLogs(hgLogs: seq<HgLog>)
    returns (hgToGit: map<string, Option<string>>, hgDates: map<string, int>, revnums: map<int, string>,
             keyToHg: map<LogKey, seq<string>>, nodes: seq<string>)
    ensures hgToGit == Unmatched(hgLogs) && hgDates == HgDates(hgLogs)
    ensures revnums == RevnumToNode(hgLogs) && keyToHg == KeyToHg(hgLogs)
    ensures nodes == HgNodes(hgLogs)
  {
    hgToGit, hgDates, revnums, keyToHg, nodes := map[], map[], map[], map[], [];
    for i := 0 to |hgLogs|
      invariant hgToGit == Unmatched(hgLogs[..i]) && hgDates == HgDates(hgLogs[..i])
      invariant revnums == RevnumToNode(hgLogs[..i]) && keyToHg == KeyToHg(hgLogs[..i])
      invariant nodes == HgNodes(hgLogs[..i])
    {
      assert hgLogs[..i + 1][..i] == hgLogs[..i];
      var h := hgLogs[i];
      var node := Strip(h.node);
      hgDates := hgDates[node := h.date];
      var key := HgKey(h);
      keyToHg := keyToHg[key := (if key in keyToHg then keyToHg[key] else []) + [node]];
      hgToGit := hgToGit[node := None];
      revnums := revnums[h.revnum := node];
      nodes := nodes + [node];
    }
    assert hgLogs[..|hgLogs|] == hgLogs;
  }

  /** The loop over the git log. */
  method ReadGitLogs(unmatched: map<string, Option<string>>, keyToHg: map<LogKey, seq<string>>, gitLogs: seq<GitLog>)
    returns (hgToGit: map<string, Option<string>>)
    ensures hgToGit == MatchGit(unmatched, keyToHg, gitLogs)
  {
    hgToGit := unmatched;
    for i := 0 to |gitLogs|
      invariant hgToGit == MatchGit(unmatched, keyToHg, gitLogs[..i])
    {
      assert gitLogs[..i + 1][..i] == gitLogs[..i];
      var key := GitKey(gitLogs[i]);
      if key in keyToHg {
        hgToGit := MatchAll(hgToGit, keyToHg[key], Strip(gitLogs[i].node));
      }
    }
    assert gitLogs[..|gitLogs|] == gitLogs;
  }

  /** `for node in key_to_hg[key]: hg_to_git[node] = git_node`. */
  method MatchAll(hgToGit: map<string, Option<string>>, nodes: seq<string>, gitNode: string) returns (res: map<string, Option<string>>)
    ensures res == MatchNodes(hgToGit, nodes, gitNode)
  {
    res := hgToGit;
    for i := 0 to |nodes|
      invariant res == MatchNodes(hgToGit, nodes[..i], gitNode)
    {
      assert nodes[..i + 1][..i] == nodes[..i];
      res := res[nodes[i] := Some(gitNode)];
    }
    assert nodes[..|nodes|] == nodes;
  }

  // ---------------------------------------------------------------------------
  // What the built mapping means

  /** The hg nodes are exactly the keys of `hg_to_git`, and they all start unmatched. */
  lemma {:induction false} UnmatchedKeys(hgLogs: seq<HgLog>)
    ensures forall n :: n in Unmatched(hgLogs) <==> n in HgNodes(hgLogs)
    ensures forall n :: n in Unmatched(hgLogs) ==> Unmatched(hgLogs)[n] == None
  {
    if hgLogs != [] {
      UnmatchedKeys(hgLogs[..|hgLogs| - 1]);
    }
  }

  lemma {:induction false} MatchNodesKeys(m: map<string, Option<string>>, nodes: seq<string>, gitNode: string)
    requires forall n :: n in nodes ==> n in m
    ensures MatchNodes(m, nodes, gitNode).Keys == m.Keys
  {
    if nodes != [] {
      MatchNodesKeys(m, nodes[..|nodes| - 1], gitNode);
    }
  }

  /** Matching never adds a key when every node of `key_to_hg` is already one. */
  lemma {:induction false} MatchGitKeys(m: map<string, Option<string>>, keyToHg: map<LogKey, seq<string>>, gitLogs: seq<GitLog>)
    requires forall k, n :: k in keyToHg && n in keyToHg[k] ==> n in m
    ensures MatchGit(m, keyToHg, gitLogs).Keys == m.Keys
  {
    if gitLogs != [] {
      MatchGitKeys(m, keyToHg, gitLogs[..|gitLogs| - 1]);
      var g := gitLogs[|gitLogs| - 1];
      if GitKey(g) in keyToHg {
        MatchNodesKeys(MatchGit(m, keyToHg, gitLogs[..|gitLogs| - 1]), keyToHg[GitKey(g)], Strip(g.node));
      }
    }
  }

  /** The hg entry has the node and the key. */
  predicate Records(h: HgLog, k: LogKey, n: string) {
    Strip(h.node) == n && HgKey(h) == k
  }

  /** A node is listed under a key exactly when some hg entry has that node and key. */
  lemma {:induction false} KeyToHgMeaning(hgLogs: seq<HgLog>, k: LogKey, n: string)
    ensures k in KeyToHg(hgLogs) && n in KeyToHg(hgLogs)[k] <==>
      exists i :: 0 <= i < |hgLogs| && Records(hgLogs[i], k, n)
  {
    if hgLogs != [] {
      var init := hgLogs[..|hgLogs| - 1];
      var h := hgLogs[|hgLogs| - 1];
      KeyToHgMeaning(init, k, n);
      KeyToHgStep(hgLogs, k, n);
      if k in KeyToHg(hgLogs) && n in KeyToHg(hgLogs)[k] {
        if k == HgKey(h) && n == Strip(h.node) {
          assert Records(hgLogs[|hgLogs| - 1], k, n);
        } else {
          var i :| 0 <= i < |init| && Records(init[i], k, n);
          assert hgLogs[i] == init[i];
        }
      } else {
        forall i | 0 <= i < |hgLogs|
          ensures !Records(hgLogs[i], k, n)
        {
          if i < |init| {
            assert hgLogs[i] == init[i];
          }
        }
      }
    }
  }

  /** One hg entry adds its node under its key and nothing else. */
  lemma KeyToHgStep(hgLogs: seq<HgLog>, k: LogKey, n: string)
    requires hgLogs != []
    ensures var m := KeyToHg(hgLogs[..|hgLogs| - 1]);
      var h := hgLogs[|hgLogs| - 1];
      k in KeyToHg(hgLogs) && n in KeyToHg(hgLogs)[k] <==>
        (k in m && n in m[k]) || (k == HgKey(h) && n == Strip(h.node))
  {
  }

  lemma {:induction false} MatchNodesValue(m: map<string, Option<string>>, nodes: seq<string>, gitNode: string, n: string)
    requires n in m
    ensures MatchNodes(m, nodes, gitNode)[n] == if n in nodes then Some(gitNode) else m[n]
  {
    if nodes != [] {
      MatchNodesValue(m, nodes[..|nodes| - 1], gitNode, n);
      assert nodes == nodes[..|nodes| - 1] + [nodes[|nodes| - 1]];
    }
  }

  /** The git commit a node gets, read per node: the last git entry whose key lists the node. */
  function LastMatch(keyToHg: map<LogKey, seq<string>>, gitLogs: seq<GitLog>, n: string): Option<string> {
    if gitLogs == [] then None
    else
      var g := gitLogs[|gitLogs| - 1];
      if GitKey(g) in keyToHg && n in keyToHg[GitKey(g)] then Some(Strip(g.node))
      else LastMatch(keyToHg, gitLogs[..|gitLogs| - 1], n)
  }

  /** The per-log loops and the per-node reading agree. */
  lemma {:induction false} MatchGitValue(m: map<string, Option<string>>, keyToHg: map<LogKey, seq<string>>, gitLogs: seq<GitLog>, n: string)
    requires forall k, x :: k in keyToHg && x in keyToHg[k] ==> x in m
    requires n in m
    ensures MatchGit(m, keyToHg, gitLogs)[n] == if LastMatch(keyToHg, gitLogs, n).Some? then LastMatch(keyToHg, gitLogs, n) else m[n]
  {
    if gitLogs != [] {
      var init := gitLogs[..|gitLogs| - 1];
      var g := gitLogs[|gitLogs| - 1];
      MatchGitValue(m, keyToHg, init, n);
      MatchGitKeys(m, keyToHg, init);
      if GitKey(g) in keyToHg {
        MatchNodesValue(MatchGit(m, keyToHg, init), keyToHg[GitKey(g)], Strip(g.node), n);
      }
    }
  }

  /**
   * After `__init__` every hg node is a key of `hg_to_git`, and maps to the
   * last git commit whose (date, description) key is one of that node's
   * keys, or to `None` when no git commit has such a key.
   */
  lemma HgToGitMeaning(hgLogs: seq<HgLog>, gitLogs: seq<GitLog>, n: string)
    ensures var hgToGit := MatchGit(Unmatched(hgLogs), KeyToHg(hgLogs), gitLogs);
      && (n in hgToGit <==> n in HgNodes(hgLogs))
      && (n in hgToGit ==> hgToGit[n] == LastMatch(KeyToHg(hgLogs), gitLogs, n))
  {
    UnmatchedKeys(hgLogs);
    KeyToHgNodes(hgLogs);
    MatchGitKeys(Unmatched(hgLogs), KeyToHg(hgLogs), gitLogs);
    if n in Unmatched(hgLogs) {
      MatchGitValue(Unmatched(hgLogs), KeyToHg(hgLogs), gitLogs, n);
    }
  }

  /** Every node listed in `key_to_hg` is one of the log's nodes. */
  lemma {:induction false} KeyToHgNodes(hgLogs: seq<HgLog>)
    ensures forall k, n :: k in KeyToHg(hgLogs) && n in KeyToHg(hgLogs)[k] ==> n in HgNodes(hgLogs)
  {
    if hgLogs != [] {
      KeyToHgNodes(hgLogs[..|hgLogs| - 1]);
    }
  }

  /** A git entry matches the node of every hg entry with the same key. */
  lemma LastMatchFinds(hgLogs: seq<HgLog>, gitLogs: seq<GitLog>, i: nat, j: nat)
    requires i < |hgLogs| && j < |gitLogs| && HgKey(hgLogs[i]) == GitKey(gitLogs[j])
    ensures LastMatch(KeyToHg(hgLogs), gitLogs, Strip(hgLogs[i].node)).Some?
  {
    KeyToHgMeaning(hgLogs, HgKey(hgLogs[i]), Strip(hgLogs[i].node));
    LastMatchSome(KeyToHg(hgLogs), gitLogs, Strip(hgLogs[i].node), j);
  }

  lemma {:induction false} LastMatchSome(keyToHg: map<LogKey, seq<string>>, gitLogs: seq<GitLog>, n: string, j: nat)
    requires j < |gitLogs| && GitKey(gitLogs[j]) in keyToHg && n in keyToHg[GitKey(gitLogs[j])]
    ensures LastMatch(keyToHg, gitLogs, n).Some?
  {
    if j < |gitLogs| - 1 {
      var init := gitLogs[..|gitLogs| - 1];
      assert init[j] == gitLogs[j];
      LastMatchSome(keyToHg, init, n, j);
    }
  }
}
