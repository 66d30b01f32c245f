/**
 * The textual rewriters of `BbToGh`: old Bitbucket URLs, changeset markers,
 * changeset links, issue links and pull request markers, and `convert_all`,
 * which chains them. Each `re.findall` is a left-to-right scan for the
 * pattern's non-overlapping matches; each loop over the matches replaces
 * the matched text everywhere, as `str.replace` does.
 */
module LinkRewrite {
  import opened Wrappers
  import opened Strings
  import opened Hg2Git

  // ---------------------------------------------------------------------------
  // Character classes (ASCII) and runs

  /** `\w`. */
  predicate IsWordChar(c: char) {
    'a' <= c <= 'z' || 'A' <= c <= 'Z' || IsDigit(c) || c == '_'
  }

  /** `[\w\d.,_-]`. */
  predicate IsSlugChar(c: char) {
    IsWordChar(c) || c == '.' || c == ',' || c == '-'
  }

  /** `[0-9a-f]`. */
  predicate IsLowerHex(c: char) {
    IsDigit(c) || 'a' <= c <= 'f'
  }

  /** `[^>]`. */
  predicate NotGt(c: char) {
    c != '>'
  }

  /** The end of the longest run of `inClass` characters from `j` on: what a greedy `[...]*` consumes. */
  function Span(s: string, j: nat, inClass: char -> bool): (e: nat)
    requires j <= |s|
    ensures j <= e <= |s|
    ensures forall k :: j <= k < e ==> inClass(s[k])
    ensures e == |s| || !inClass(s[e])
    decreases |s| - j
  {
    if j == |s| || !inClass(s[j]) then j else Span(s, j + 1, inClass)
  }

  lemma {:induction false} SpanOfRun(s: string, j: nat, e: nat, inClass: char -> bool)
    requires j <= e <= |s|
    requires forall k :: j <= k < e ==> inClass(s[k])
    requires e == |s| || !inClass(s[e])
    ensures Span(s, j, inClass) == e
    decreases e - j
  {
    if j < e {
      SpanOfRun(s, j + 1, e, inClass);
    }
  }

  /** `str(x)` of a git hash or `None`. */
  function HashText(h: Option<string>): string {
    if h.Some? then h.value else "None"
  }

  // ---------------------------------------------------------------------------
  // normalize_bb_url

  const Host: string := "bitbucket.org/"
  const HttpWww: string := "http://www." + Host
  const Http: string := "http://" + Host
  const Https: string := "https://" + Host

  /** `normalize_bb_url`: both http forms become https, then `changeset` links become `commits` links. */
  function NormalizeBbUrl(b: BbToGh, content: string): string {
    var secure := ReplaceAll(ReplaceAll(content, HttpWww, Https), Http, Https);
    ReplaceAll(secure, b.bbUrl + "/changeset/", b.bbUrl + "/commits/")
  }

  /** The three forms split after their common head `h`. */
  lemma HttpForms()
    ensures HttpWww == ['h'] + ("ttp://www." + Host)
    ensures Http == ['h'] + ("ttp://" + Host)
    ensures Https == ['h'] + ("ttps://" + Host)
  {
    assert "http://www." == ['h'] + "ttp://www.";
    assert "http://" == ['h'] + "ttp://";
    assert "https://" == ['h'] + "ttps://";
  }

  /** After the head, no form holds another `h`, and each http form differs from the https form at its fourth character. */
  lemma HttpTails()
    ensures 'h' !in "ttp://www." + Host && 'h' !in "ttp://" + Host && 'h' !in "ttps://" + Host
    ensures ("ttp://www." + Host)[3] != ("ttps://" + Host)[3]
    ensures ("ttp://" + Host)[3] != ("ttps://" + Host)[3]
  {
  }

  lemma HttpWwwUnrepeatable()
    ensures Unrepeatable(HttpWww, Https)
  {
    HttpForms();
    HttpTails();
    UnrepeatableByHead('h', "ttp://www." + Host, "ttps://" + Host, 3);
  }

  lemma HttpUnrepeatable()
    ensures Unrepeatable(Http, Https)
  {
    HttpForms();
    HttpTails();
    UnrepeatableByHead('h', "ttp://" + Host, "ttps://" + Host, 3);
  }

  /**
   * No http link to Bitbucket survives, in either form, provided the commit
   * URL of the repository cannot put one back together (it cannot for the
   * usual `https://bitbucket.org/<owner>/<repo>`).
   */
  lemma NormalizeBbUrlNoHttp(b: BbToGh, content: string)
    requires Unrepeatable(Http, b.bbUrl + "/commits/") && Unrepeatable(HttpWww, b.bbUrl + "/commits/")
    ensures !Contains(NormalizeBbUrl(b, content), Http) && !Contains(NormalizeBbUrl(b, content), HttpWww)
  {
    HttpWwwUnrepeatable();
    HttpUnrepeatable();
    var c1 := ReplaceAll(content, HttpWww, Https);
    NoOccurrenceLeft(content, HttpWww, Https, HttpWww);
    var c2 := ReplaceAll(c1, Http, Https);
    NoOccurrenceLeft(c1, Http, Https, Http);
    NoOccurrenceLeft(c1, Http, Https, HttpWww);
    NoOccurrenceLeft(c2, b.bbUrl + "/changeset/", b.bbUrl + "/commits/", Http);
    NoOccurrenceLeft(c2, b.bbUrl + "/changeset/", b.bbUrl + "/commits/", HttpWww);
  }

  /** A text without http links and without the repository URL is left alone. */
  lemma NormalizeBbUrlUnchanged(b: BbToGh, content: string)
    requires !Contains(content, "http://") && !Contains(content, b.bbUrl)
    ensures NormalizeBbUrl(b, content) == content
  {
    ContainsPrefix(content, "http://", "www." + Host);
    assert "http://" + ("www." + Host) == HttpWww;
    ContainsPrefix(content, "http://", Host);
    ContainsPrefix(content, b.bbUrl, "/changeset/");
    ReplaceAbsent(content, HttpWww, Https);
    ReplaceAbsent(content, Http, Https);
    ReplaceAbsent(content, b.bbUrl + "/changeset/", b.bbUrl + "/commits/");
  }

  // ---------------------------------------------------------------------------
  // convert_cset_marker: `<<(cset|changeset) ([^>]+)>>`

  datatype Marker = Marker(keyword: string, node: string)

  /** `<<cset ` or `<<changeset `. */
  function MarkerHead(keyword: string): string {
    "<<" + keyword + " "
  }

  function MarkerText(m: Marker): string {
    MarkerHead(m.keyword) + m.node + ">>"
  }

  /** The node of a marker and the end of the match: the longest run without `>`, then `>>`. */
  function NodeAt(s: string, j: nat, keyword: string): (r: Option<(Marker, nat)>)
    requires j <= |s|
    ensures r.Some? ==> j < r.value.1 <= |s|
  {
    var e := Span(s, j, NotGt);
    if e > j && OccursAt(s, ">>", e) then Some((Marker(keyword, s[j..e]), e + 2)) else None
  }

  /** The match starting at `i`, if any. */
  function MarkerAt(s: string, i: nat): (r: Option<(Marker, nat)>)
    requires i <= |s|
    ensures r.Some? ==> i < r.value.1 <= |s|
  {
    if OccursAt(s, MarkerHead("cset"), i) then NodeAt(s, i + |MarkerHead("cset")|, "cset")
    else if OccursAt(s, MarkerHead("changeset"), i) then NodeAt(s, i + |MarkerHead("changeset")|, "changeset")
    else None
  }

  /** `re.findall` of the marker pattern from `i` on. */
  function Markers(s: string, i: nat): seq<Marker>
    requires i <= |s|
    decreases |s| - i
  {
    if i == |s| then []
    else
      match MarkerAt(s, i)
      case Some(found) => [found.0] + Markers(s, found.1)
      case None => Markers(s, i + 1)
  }

  predicate WellFormedMarker(m: Marker) {
    (m.keyword == "cset" || m.keyword == "changeset") && m.node != [] && '>' !in m.node
  }

  lemma NodeAtSound(s: string, i: nat, keyword: string)
    requires OccursAt(s, MarkerHead(keyword), i) && NodeAt(s, i + |MarkerHead(keyword)|, keyword).Some?
    ensures var (m, e) := NodeAt(s, i + |MarkerHead(keyword)|, keyword).value;
      && m.keyword == keyword && m.node != [] && '>' !in m.node
      && OccursAt(s, MarkerText(m), i) && e == i + |MarkerText(m)|
  {
    var j := i + |MarkerHead(keyword)|;
    var (m, e) := NodeAt(s, j, keyword).value;
    assert forall x :: 0 <= x < |m.node| ==> m.node[x] == s[j + x];
    OccursAtJoin(s, MarkerHead(keyword), m.node, i);
    OccursAtJoin(s, MarkerHead(keyword) + m.node, ">>", i);
  }

  lemma MarkerAtSound(s: string, i: nat)
    requires i <= |s| && MarkerAt(s, i).Some?
    ensures var (m, e) := MarkerAt(s, i).value;
      WellFormedMarker(m) && OccursAt(s, MarkerText(m), i) && e == i + |MarkerText(m)|
  {
    if OccursAt(s, MarkerHead("cset"), i) {
      NodeAtSound(s, i, "cset");
    } else {
      NodeAtSound(s, i, "changeset");
    }
  }

  /** Every match is a well-formed marker whose text occurs in the content. */
  lemma {:induction false} MarkersSound(s: string, i: nat)
    requires i <= |s|
    ensures forall m :: m in Markers(s, i) ==> WellFormedMarker(m) && Contains(s, MarkerText(m))
    decreases |s| - i
  {
    if i < |s| {
      match MarkerAt(s, i)
      case Some(found) =>
        MarkerAtSound(s, i);
        MarkersSound(s, found.1);
      case None =>
        MarkersSound(s, i + 1);
    }
  }

  /** No `<<`, no marker. */
  lemma {:induction false} MarkersAbsent(s: string, i: nat)
    requires i <= |s| && !Contains(s, "<<")
    ensures Markers(s, i) == []
    decreases |s| - i
  {
    if i < |s| {
      if OccursAt(s, MarkerHead("cset"), i) {
        OccursAtPrefix(s, "<<", "cset" + " ", i);
      }
      if OccursAt(s, MarkerHead("changeset"), i) {
        OccursAtPrefix(s, "<<", "changeset" + " ", i);
      }
      MarkersAbsent(s, i + 1);
    }
  }

  /** `hg_node.split(":")[1]` when the node holds a `:`, as in `718:714c805d842f`. */
  function CsetTarget(node: string): string {
    if ':' in node then Field(node, ':', 1) else node
  }

  /** A `revnum:node` marker is looked up by the node after the colon. */
  lemma CsetTargetAfterColon(revnum: string, node: string)
    requires ':' !in revnum && ':' !in node
    ensures CsetTarget(revnum + ":" + node) == node
  {
    FieldAfterSeparator(revnum, ':', node);
    assert revnum + ":" + node == revnum + [':'] + node;
  }

  /** `\<\<cset H\>\>` with the git hash of the marker's node (`None` when there is none). */
  function CsetReplacement(b: BbToGh, m: Marker): string {
    "\\<\\<cset " + HashText(b.HgnodeToGithash(CsetTarget(m.node))) + "\\>\\>"
  }

  /** The loop of `convert_cset_marker` over the matches. */
  function ReplaceMarkers(b: BbToGh, content: string, markers: seq<Marker>): string {
    if markers == [] then content
    else
      var m := markers[|markers| - 1];
      ReplaceAll(ReplaceMarkers(b, content, markers[..|markers| - 1]), MarkerText(m), CsetReplacement(b, m))
  }

  lemma ReplaceMarkersStep(b: BbToGh, content: string, markers: seq<Marker>, i: nat)
    requires i < |markers|
    ensures ReplaceMarkers(b, content, markers[..i + 1])
      == ReplaceAll(ReplaceMarkers(b, content, markers[..i]), MarkerText(markers[i]), CsetReplacement(b, markers[i]))
  {
    assert markers[..i + 1][..i] == markers[..i];
  }

  /** `convert_cset_marker`. */
  method ConvertCsetMarker(b: BbToGh, content: string) returns (res: string)
    ensures res == ReplaceMarkers(b, content, Markers(content, 0))
  {
    var captures := Markers(content, 0);
    res := content;
    for i := 0 to |captures|
      invariant res == ReplaceMarkers(b, content, captures[..i])
    {
      ReplaceMarkersStep(b, content, captures, i);
      res := ReplaceAll(res, MarkerText(captures[i]), CsetReplacement(b, captures[i]));
    }
    assert captures[..|captures|] == captures;
  }

  lemma NodeAtFound(s: string, j: nat, node: string, keyword: string)
    requires OccursAt(s, node + ">>", j) && node != [] && '>' !in node
    ensures NodeAt(s, j, keyword) == Some((Marker(keyword, node), j + |node| + 2))
  {
    OccursAtSplit(s, node, ">>", j);
    var e := j + |node|;
    assert forall x :: j <= x < e ==> s[x] == node[x - j];
    assert s[e] == s[e..e + 2][0] == '>';
    SpanOfRun(s, j, e, NotGt);
    assert s[j..e] == node;
  }

  /**
   * The scanner misses no marker: wherever a well-formed marker's text
   * starts, the match found there is that marker, ending right after it.
   */
  lemma MarkerAtComplete(s: string, i: nat, m: Marker)
    requires WellFormedMarker(m) && OccursAt(s, MarkerText(m), i)
    ensures MarkerAt(s, i) == Some((m, i + |MarkerText(m)|))
  {
    MarkerTextAt(s, i, m);
    NodeAtFound(s, i + |MarkerHead(m.keyword)|, m.node, m.keyword);
  }

  /** Where the head and the node of a marker found at `i` sit; `<<changeset ` is not `<<cset `. */
  lemma MarkerTextAt(s: string, i: nat, m: Marker)
    requires WellFormedMarker(m) && OccursAt(s, MarkerText(m), i)
    ensures OccursAt(s, MarkerHead(m.keyword), i) && OccursAt(s, m.node + ">>", i + |MarkerHead(m.keyword)|)
    ensures m.keyword == "changeset" ==> !OccursAt(s, MarkerHead("cset"), i)
    ensures |MarkerText(m)| == |MarkerHead(m.keyword)| + |m.node| + 2
  {
    var head := MarkerHead(m.keyword);
    assert MarkerText(m) == head + (m.node + ">>");
    OccursAtSplit(s, head, m.node + ">>", i);
    if m.keyword == "changeset" {
      assert s[i + 3] == s[i..i + |head|][3] == 'h';
      assert s[i..i + |MarkerHead("cset")|][3] == s[i + 3];
    }
  }

  /** A marker on its own becomes the escaped marker of its git hash. */
  lemma SingleMarker(b: BbToGh, m: Marker)
    requires WellFormedMarker(m)
    ensures Markers(MarkerText(m), 0) == [m]
    ensures ReplaceMarkers(b, MarkerText(m), Markers(MarkerText(m), 0)) == CsetReplacement(b, m)
  {
    MarkerAtComplete(MarkerText(m), 0, m);
    ReplaceWhole(MarkerText(m), CsetReplacement(b, m));
  }

  // ---------------------------------------------------------------------------
  // convert_bb_cset_link: `bb_url/commits/([0-9a-f]+)(/?)`

  datatype CsetLink = CsetLink(node: string, slash: string)

  function CommitsBase(b: BbToGh): string { b.bbUrl + "/commits/" }

  function CsetLinkText(b: BbToGh, l: CsetLink): string { CommitsBase(b) + l.node + l.slash }

  /** The node and optional slash of a commit link whose node starts at `j`. */
  function CsetLinkFrom(s: string, j: nat): (r: Option<(CsetLink, nat)>)
    requires j <= |s|
    ensures r.Some? ==> j < r.value.1 <= |s|
  {
    var e := Span(s, j, IsLowerHex);
    if e == j then None
    else
      var f := if e < |s| && s[e] == '/' then e + 1 else e;
      Some((CsetLink(s[j..e], s[e..f]), f))
  }

  function CsetLinkAt(b: BbToGh, s: string, i: nat): (r: Option<(CsetLink, nat)>)
    requires i <= |s|
    ensures r.Some? ==> i < r.value.1 <= |s|
  {
    if OccursAt(s, CommitsBase(b), i) then CsetLinkFrom(s, i + |CommitsBase(b)|) else None
  }

  /** `re.findall` of the commit link pattern from `i` on. */
  function CsetLinks(b: BbToGh, s: string, i: nat): seq<CsetLink>
    requires i <= |s|
    decreases |s| - i
  {
    if i == |s| then []
    else
      match CsetLinkAt(b, s, i)
      case Some(found) => [found.0] + CsetLinks(b, s, found.1)
      case None => CsetLinks(b, s, i + 1)
  }

  predicate WellFormedCsetLink(l: CsetLink) {
    l.node != [] && (forall k :: 0 <= k < |l.node| ==> IsLowerHex(l.node[k])) && (l.slash == "" || l.slash == "/")
  }

  lemma CsetLinkFromSound(s: string, j: nat)
    requires j <= |s| && CsetLinkFrom(s, j).Some?
    ensures var (l, f) := CsetLinkFrom(s, j).value;
      && WellFormedCsetLink(l) && OccursAt(s, l.node, j) && OccursAt(s, l.slash, j + |l.node|)
      && f == j + |l.node| + |l.slash|
  {
    var (l, f) := CsetLinkFrom(s, j).value;
    assert forall k :: 0 <= k < |l.node| ==> l.node[k] == s[j + k];
  }

  lemma CsetLinkAtSound(b: BbToGh, s: string, i: nat)
    requires i <= |s| && CsetLinkAt(b, s, i).Some?
    ensures var (l, e) := CsetLinkAt(b, s, i).value;
      WellFormedCsetLink(l) && OccursAt(s, CsetLinkText(b, l), i) && e == i + |CsetLinkText(b, l)|
  {
    var l := CsetLinkAt(b, s, i).value.0;
    var front := CommitsBase(b) + l.node;
    CsetLinkFromSound(s, i + |CommitsBase(b)|);
    OccursAtJoin(s, CommitsBase(b), l.node, i);
    assert i + |front| == i + |CommitsBase(b)| + |l.node|;
    OccursAtJoin(s, front, l.slash, i);
  }

  /** Every match is a hex node, with or without a slash, whose link occurs in the content. */
  lemma {:induction false} CsetLinksSound(b: BbToGh, s: string, i: nat)
    requires i <= |s|
    ensures forall l :: l in CsetLinks(b, s, i) ==> WellFormedCsetLink(l) && Contains(s, CsetLinkText(b, l))
    decreases |s| - i
  {
    if i < |s| {
      match CsetLinkAt(b, s, i)
      case Some(found) =>
        CsetLinkAtSound(b, s, i);
        CsetLinksSound(b, s, found.1);
      case None =>
        CsetLinksSound(b, s, i + 1);
    }
  }

  lemma {:induction false} CsetLinksAbsent(b: BbToGh, s: string, i: nat)
    requires i <= |s| && !Contains(s, CommitsBase(b))
    ensures CsetLinks(b, s, i) == []
    decreases |s| - i
  {
    if i < |s| {
      CsetLinksAbsent(b, s, i + 1);
    }
  }

  /** ` H ` with the git hash of the linked node. */
  function CsetLinkReplacement(b: BbToGh, l: CsetLink): string {
    " " + HashText(b.HgnodeToGithash(l.node)) + " "
  }

  /** The loop of `convert_bb_cset_link` over the matches. */
  function ReplaceCsetLinks(b: BbToGh, content: string, links: seq<CsetLink>): string {
    if links == [] then content
    else
      var l := links[|links| - 1];
      ReplaceAll(ReplaceCsetLinks(b, content, links[..|links| - 1]), CsetLinkText(b, l), CsetLinkReplacement(b, l))
  }

  /** `convert_bb_cset_link`. */
  method ConvertBbCsetLink(b: BbToGh, content: string) returns (res: string)
    ensures res == ReplaceCsetLinks(b, content, CsetLinks(b, content, 0))
  {
    var links := CsetLinks(b, content, 0);
    res := content;
    for i := 0 to |links|
      invariant res == ReplaceCsetLinks(b, content, links[..i])
    {
      assert links[..i + 1][..i] == links[..i];
      res := ReplaceAll(res, CsetLinkText(b, links[i]), CsetLinkReplacement(b, links[i]));
    }
    assert links[..|links|] == links;
  }

  /**
   * The scanner misses no commit link: wherever a hex node that cannot be
   * extended starts after the commits URL, with its slash when one follows,
   * the match found there is that link.
   */
  lemma CsetLinkAtComplete(b: BbToGh, s: string, i: nat, l: CsetLink)
    requires WellFormedCsetLink(l) && OccursAt(s, CsetLinkText(b, l), i)
    requires var e := i + |CommitsBase(b)| + |l.node|;
      (e == |s| || !IsLowerHex(s[e])) && (l.slash == "" ==> e == |s| || s[e] != '/')
    ensures CsetLinkAt(b, s, i) == Some((l, i + |CsetLinkText(b, l)|))
  {
    var j := i + |CommitsBase(b)|;
    OccursAtSplit3(s, CommitsBase(b), l.node, l.slash, i);
    assert i + |CsetLinkText(b, l)| == j + |l.node| + |l.slash|;
    CsetLinkFromComplete(s, j, l);
  }

  /** A hex node at `j` that cannot be extended, with its slash when one follows: one match. */
  lemma CsetLinkFromComplete(s: string, j: nat, l: CsetLink)
    requires WellFormedCsetLink(l) && OccursAt(s, l.node, j) && OccursAt(s, l.slash, j + |l.node|)
    requires var e := j + |l.node|;
      (e == |s| || !IsLowerHex(s[e])) && (l.slash == "" ==> e == |s| || s[e] != '/')
    ensures CsetLinkFrom(s, j) == Some((l, j + |l.node| + |l.slash|))
  {
    var e := j + |l.node|;
    assert forall k :: j <= k < e ==> s[k] == l.node[k - j];
    if l.slash == "/" {
      assert s[e] == s[e..e + 1][0] == '/';
    }
    SpanOfRun(s, j, e, IsLowerHex);
    assert s[j..e] == l.node;
  }

  /** A commit link ending in a slash, on its own, becomes its git hash between spaces. */
  lemma SingleCsetLink(b: BbToGh, node: string)
    requires node != [] && forall k :: 0 <= k < |node| ==> IsLowerHex(node[k])
    ensures var s := CommitsBase(b) + node + "/";
      ReplaceCsetLinks(b, s, CsetLinks(b, s, 0)) == " " + HashText(b.HgnodeToGithash(node)) + " "
  {
    var base := CommitsBase(b);
    var s := base + node + "/";
    var e := |base| + |node|;
    assert s[0..|base|] == base;
    assert forall k :: |base| <= k < e ==> s[k] == node[k - |base|];
    SpanOfRun(s, |base|, e, IsLowerHex);
    assert s[|base|..e] == node && s[e..e + 1] == "/";
    assert CsetLinkAt(b, s, 0) == Some((CsetLink(node, "/"), |s|));
    assert CsetLinks(b, s, 0) == [CsetLink(node, "/")];
    ReplaceWhole(s, CsetLinkReplacement(b, CsetLink(node, "/")));
  }

  // ---------------------------------------------------------------------------
  // convert_bb_issue_link: `bb_url/issue/(\d+)(/[\w\d.,_-]*)?`

  datatype IssueLink = IssueLink(id: string, rest: string)

  function IssueBase(b: BbToGh): string { b.bbUrl + "/issue/" }

  function IssueLinkText(b: BbToGh, l: IssueLink): string { IssueBase(b) + l.id + l.rest }

  /** The end of the optional `/slug` part that starts at `e`. */
  function SlugEnd(s: string, e: nat): (f: nat)
    requires e <= |s|
    ensures e <= f <= |s|
  {
    if e < |s| && s[e] == '/' then Span(s, e + 1, IsSlugChar) else e
  }

  /** The number and optional slug of an issue link whose number starts at `j`. */
  function IssueLinkFrom(s: string, j: nat): (r: Option<(IssueLink, nat)>)
    requires j <= |s|
    ensures r.Some? ==> j < r.value.1 <= |s|
  {
    var e := Span(s, j, IsDigit);
    if e == j then None
    else
      var f := SlugEnd(s, e);
      Some((IssueLink(s[j..e], s[e..f]), f))
  }

  function IssueLinkAt(b: BbToGh, s: string, i: nat): (r: Option<(IssueLink, nat)>)
    requires i <= |s|
    ensures r.Some? ==> i < r.value.1 <= |s|
  {
    if OccursAt(s, IssueBase(b), i) then IssueLinkFrom(s, i + |IssueBase(b)|) else None
  }

  /** `re.findall` of the issue link pattern from `i` on. */
  function IssueLinks(b: BbToGh, s: string, i: nat): seq<IssueLink>
    requires i <= |s|
    decreases |s| - i
  {
    if i == |s| then []
    else
      match IssueLinkAt(b, s, i)
      case Some(found) => [found.0] + IssueLinks(b, s, found.1)
      case None => IssueLinks(b, s, i + 1)
  }

  predicate WellFormedIssueLink(l: IssueLink) {
    IsDigits(l.id) && (l.rest == [] || (l.rest[0] == '/' && forall k :: 1 <= k < |l.rest| ==> IsSlugChar(l.rest[k])))
  }

  lemma IssueLinkFromSound(s: string, j: nat)
    requires j <= |s| && IssueLinkFrom(s, j).Some?
    ensures var (l, f) := IssueLinkFrom(s, j).value;
      && WellFormedIssueLink(l) && OccursAt(s, l.id, j) && OccursAt(s, l.rest, j + |l.id|)
      && f == j + |l.id| + |l.rest|
  {
    var (l, f) := IssueLinkFrom(s, j).value;
    var e := j + |l.id|;
    assert forall k :: 0 <= k < |l.id| ==> l.id[k] == s[j + k];
    assert forall k :: 0 <= k < |l.rest| ==> l.rest[k] == s[e + k];
  }

  lemma IssueLinkAtSound(b: BbToGh, s: string, i: nat)
    requires i <= |s| && IssueLinkAt(b, s, i).Some?
    ensures var (l, f) := IssueLinkAt(b, s, i).value;
      WellFormedIssueLink(l) && OccursAt(s, IssueLinkText(b, l), i) && f == i + |IssueLinkText(b, l)|
  {
    var l := IssueLinkAt(b, s, i).value.0;
    var front := IssueBase(b) + l.id;
    IssueLinkFromSound(s, i + |IssueBase(b)|);
    OccursAtJoin(s, IssueBase(b), l.id, i);
    assert i + |front| == i + |IssueBase(b)| + |l.id|;
    OccursAtJoin(s, front, l.rest, i);
  }

  /** Every match is a number, with or without a slug, whose link occurs in the content. */
  lemma {:induction false} IssueLinksSound(b: BbToGh, s: string, i: nat)
    requires i <= |s|
    ensures forall l :: l in IssueLinks(b, s, i) ==> WellFormedIssueLink(l) && Contains(s, IssueLinkText(b, l))
    decreases |s| - i
  {
    if i < |s| {
      match IssueLinkAt(b, s, i)
      case Some(found) =>
        IssueLinkAtSound(b, s, i);
        IssueLinksSound(b, s, found.1);
      case None =>
        IssueLinksSound(b, s, i + 1);
    }
  }

  lemma {:induction false} IssueLinksAbsent(b: BbToGh, s: string, i: nat)
    requires i <= |s| && !Contains(s, IssueBase(b))
    ensures IssueLinks(b, s, i) == []
    decreases |s| - i
  {
    if i < |s| {
      IssueLinksAbsent(b, s, i + 1);
    }
  }

  /** The loop of `convert_bb_issue_link` as written: every match's text is replaced by `#N` everywhere. */
  function ReplaceIssueLinks(b: BbToGh, content: string, links: seq<IssueLink>): string {
    if links == [] then content
    else
      var l := links[|links| - 1];
      ReplaceAll(ReplaceIssueLinks(b, content, links[..|links| - 1]), IssueLinkText(b, l), "#" + l.id)
  }

  /** `convert_bb_issue_link` as written. */
  method ConvertBbIssueLink(b: BbToGh, content: string) returns (res: string)
    ensures res == ReplaceIssueLinks(b, content, IssueLinks(b, content, 0))
  {
    var links := IssueLinks(b, content, 0);
    res := content;
    for i := 0 to |links|
      invariant res == ReplaceIssueLinks(b, content, links[..i])
    {
      assert links[..i + 1][..i] == links[..i];
      res := ReplaceAll(res, IssueLinkText(b, links[i]), "#" + links[i].id);
    }
    assert links[..|links|] == links;
  }

  /**
   * The issue links rewritten where they were found, as `re.sub` with the
   * same pattern does: each match becomes `#N` and the text between matches
   * is kept. Each `#N` is shorter than the link it stands for, so the text
   * never grows.
   */
  function SubstituteIssueLinks(b: BbToGh, s: string, i: nat): (r: string)
    requires i <= |s|
    ensures |r| <= |s| - i
    decreases |s| - i
  {
    if i == |s| then []
    else
      match IssueLinkAt(b, s, i)
      case Some(found) =>
        IssueLinkAtSound(b, s, i);
        "#" + found.0.id + SubstituteIssueLinks(b, s, found.1)
      case None => [s[i]] + SubstituteIssueLinks(b, s, i + 1)
  }

  /** Text without the issue URL is left alone by both forms. */
  lemma {:induction false} IssueLinksUnchanged(b: BbToGh, s: string, i: nat)
    requires i <= |s| && !Contains(s, IssueBase(b))
    ensures SubstituteIssueLinks(b, s, i) == s[i..]
    ensures ReplaceIssueLinks(b, s, IssueLinks(b, s, 0)) == s
    decreases |s| - i
  {
    IssueLinksAbsent(b, s, 0);
    if i < |s| {
      IssueLinksUnchanged(b, s, i + 1);
      assert s[i..] == [s[i]] + s[i + 1..];
    }
  }

  /** A number at `j`, then a slug up to a character that cannot be in one: one match with its slug. */
  lemma IssueLinkFromSlug(s: string, j: nat, id: string, rest: string)
    requires WellFormedIssueLink(IssueLink(id, rest)) && rest != []
    requires OccursAt(s, id, j) && OccursAt(s, rest, j + |id|)
    requires var f := j + |id| + |rest|; f == |s| || !IsSlugChar(s[f])
    ensures IssueLinkFrom(s, j) == Some((IssueLink(id, rest), j + |id| + |rest|))
  {
    var e, f := j + |id|, j + |id| + |rest|;
    assert forall k :: j <= k < e ==> s[k] == id[k - j];
    assert forall k :: e <= k < f ==> s[k] == rest[k - e];
    SpanOfRun(s, j, e, IsDigit);
    SpanOfRun(s, e + 1, f, IsSlugChar);
  }

  /** A number at `j`, followed by neither a digit nor a `/`: one match without a slug. */
  lemma IssueLinkFromBare(s: string, j: nat, id: string)
    requires IsDigits(id) && OccursAt(s, id, j)
    requires var e := j + |id|; e == |s| || (!IsDigit(s[e]) && s[e] != '/')
    ensures IssueLinkFrom(s, j) == Some((IssueLink(id, ""), j + |id|))
  {
    var e := j + |id|;
    assert forall k :: j <= k < e ==> s[k] == id[k - j];
    SpanOfRun(s, j, e, IsDigit);
    assert SlugEnd(s, e) == e && s[e..e] == [];
  }

  /**
   * The link `l` cannot be extended past `f`: a bare number is followed by
   * neither a digit nor a `/`, a slug by no further slug character.
   */
  predicate IssueLinkEndsAt(s: string, f: nat, l: IssueLink) {
    f == |s| || (f < |s| && if l.rest == [] then !IsDigit(s[f]) && s[f] != '/' else !IsSlugChar(s[f]))
  }

  /**
   * The scanner misses no issue link: wherever a number after the issue URL
   * starts, followed by a slug that cannot be extended or by neither a digit
   * nor a `/`, the match found there is that link.
   */
  lemma IssueLinkAtComplete(b: BbToGh, s: string, i: nat, l: IssueLink)
    requires WellFormedIssueLink(l) && OccursAt(s, IssueLinkText(b, l), i)
    requires IssueLinkEndsAt(s, i + |IssueLinkText(b, l)|, l)
    ensures IssueLinkAt(b, s, i) == Some((l, i + |IssueLinkText(b, l)|))
  {
    var j := i + |IssueBase(b)|;
    OccursAtSplit3(s, IssueBase(b), l.id, l.rest, i);
    assert i + |IssueLinkText(b, l)| == j + |l.id| + |l.rest|;
    IssueLinkFromComplete(s, j, l);
  }

  /** A number at `j` with the slug that follows it, if any, that cannot be extended: one match. */
  lemma IssueLinkFromComplete(s: string, j: nat, l: IssueLink)
    requires WellFormedIssueLink(l) && OccursAt(s, l.id, j) && OccursAt(s, l.rest, j + |l.id|)
    requires IssueLinkEndsAt(s, j + |l.id| + |l.rest|, l)
    ensures IssueLinkFrom(s, j) == Some((l, j + |l.id| + |l.rest|))
  {
    if l.rest == [] {
      IssueLinkFromBare(s, j, l.id);
    } else {
      IssueLinkFromSlug(s, j, l.id, l.rest);
    }
  }

  /** An issue link with a slug on its own becomes `#N`, in both forms. */
  lemma SingleIssueLink(b: BbToGh, id: string, slug: string)
    requires IsDigits(id) && forall k :: 0 <= k < |slug| ==> IsSlugChar(slug[k])
    ensures var s := IssueBase(b) + id + "/" + slug;
      && ReplaceIssueLinks(b, s, IssueLinks(b, s, 0)) == "#" + id
      && SubstituteIssueLinks(b, s, 0) == "#" + id
  {
    var base, rest := IssueBase(b), "/" + slug;
    var s := base + id + "/" + slug;
    assert s == [] + base + (id + rest) == base + id + rest + [];
    OccursAtMiddle([], base, id + rest);
    OccursAtMiddle(base, id, rest);
    OccursAtMiddle(base + id, rest, []);
    assert forall k :: 1 <= k < |rest| ==> rest[k] == slug[k - 1];
    IssueLinkFromSlug(s, |base|, id, rest);
    assert IssueLinks(b, s, 0) == [IssueLink(id, rest)];
    assert IssueLinkText(b, IssueLink(id, rest)) == s;
    ReplaceWhole(s, "#" + id);
  }

  /** The content of the counterexample below: a link to issue 6, then one to issue 63 with the slug `t`. */
  function CollidingLinks(b: BbToGh): string {
    IssueBase(b) + "6" + " " + IssueBase(b) + "63" + "/t"
  }

  /** Where each piece of the counterexample sits. */
  lemma CollidingPieces(b: BbToGh)
    ensures var s, base, n := CollidingLinks(b), IssueBase(b), |IssueBase(b)|;
      && |s| == 2 * n + 6
      && OccursAt(s, base, 0) && OccursAt(s, "6", n) && s[n + 1] == ' '
      && OccursAt(s, base, n + 2) && OccursAt(s, "63", 2 * n + 2) && OccursAt(s, "/t", 2 * n + 4)
  {
    var base := IssueBase(b);
    var s1 := base + "6";
    var s2 := s1 + " ";
    var s3 := s2 + base;
    var s4 := s3 + "63";
    var s := s4 + "/t";
    OccursAtFront(base, "6");
    OccursAtExtend(s1, base, 0, " ");
    OccursAtExtend(s2, base, 0, base);
    OccursAtExtend(s3, base, 0, "63");
    OccursAtExtend(s4, base, 0, "/t");
    OccursAtEnd(base, "6");
    OccursAtExtend(s1, "6", |base|, " ");
    OccursAtExtend(s2, "6", |base|, base);
    OccursAtExtend(s3, "6", |base|, "63");
    OccursAtExtend(s4, "6", |base|, "/t");
    OccursAtEnd(s1, " ");
    OccursAtExtend(s2, " ", |s1|, base);
    OccursAtExtend(s3, " ", |s1|, "63");
    OccursAtExtend(s4, " ", |s1|, "/t");
    OccursAtIndex(s, " ", |s1|, 0);
    OccursAtEnd(s2, base);
    OccursAtExtend(s3, base, |s2|, "63");
    OccursAtExtend(s4, base, |s2|, "/t");
    OccursAtEnd(s3, "63");
    OccursAtExtend(s4, "63", |s3|, "/t");
    OccursAtEnd(s4, "/t");
  }

  lemma IssueBaseNoSpace(b: BbToGh)
    requires ' ' !in b.bbUrl
    ensures IssueBase(b)[0] != ' '
  {
    if b.bbUrl != [] {
      assert IssueBase(b)[0] == b.bbUrl[0];
    }
  }

  lemma CollidingFirst(b: BbToGh)
    ensures IssueLinkAt(b, CollidingLinks(b), 0) == Some((IssueLink("6", ""), |IssueBase(b)| + 1))
  {
    CollidingPieces(b);
    IssueLinkFromBare(CollidingLinks(b), |IssueBase(b)|, "6");
  }

  lemma CollidingGap(b: BbToGh)
    requires ' ' !in b.bbUrl
    ensures IssueLinkAt(b, CollidingLinks(b), |IssueBase(b)| + 1).None?
  {
    var s, n := CollidingLinks(b), |IssueBase(b)|;
    CollidingPieces(b);
    IssueBaseNoSpace(b);
    assert s[n + 1..2 * n + 1][0] == ' ';
  }

  lemma SixtyThreeWellFormed()
    ensures WellFormedIssueLink(IssueLink("63", "/t"))
  {
    assert "/t"[0] == '/' && IsSlugChar("/t"[1]);
  }

  lemma CollidingSecond(b: BbToGh)
    ensures var n := |IssueBase(b)|;
      IssueLinkAt(b, CollidingLinks(b), n + 2) == Some((IssueLink("63", "/t"), 2 * n + 6))
  {
    var n, second := |IssueBase(b)|, IssueLink("63", "/t");
    var s := CollidingLinks(b);
    CollidingSecondAt(b);
    SixtyThreeWellFormed();
    IssueLinkAtComplete(b, s, n + 2, second);
    assert IssueLinkAt(b, s, n + 2) == Some((second, 2 * n + 6));
  }

  /** The second link of the counterexample sits at `n + 2` and runs to the end. */
  lemma CollidingSecondAt(b: BbToGh)
    ensures var n := |IssueBase(b)|;
      OccursAt(CollidingLinks(b), IssueLinkText(b, IssueLink("63", "/t")), n + 2)
      && n + 2 + |IssueLinkText(b, IssueLink("63", "/t"))| == |CollidingLinks(b)| == 2 * n + 6
  {
    var base := IssueBase(b);
    var front := base + "6" + " ";
    var text := IssueLinkText(b, IssueLink("63", "/t"));
    AppendAssoc(front + base, "63", "/t");
    AppendAssoc(front, base, "63" + "/t");
    AppendAssoc(base, "63", "/t");
    assert CollidingLinks(b) == front + text;
    OccursAtEnd(front, text);
  }

  /** The scan finds both links; substituting in place rewrites each to its number. */
  lemma CollidingLinksFound(b: BbToGh)
    requires ' ' !in b.bbUrl
    ensures IssueLinks(b, CollidingLinks(b), 0) == [IssueLink("6", ""), IssueLink("63", "/t")]
    ensures SubstituteIssueLinks(b, CollidingLinks(b), 0) == "#6 #63"
  {
    var s, n := CollidingLinks(b), |IssueBase(b)|;
    CollidingFirst(b);
    CollidingGap(b);
    CollidingSecond(b);
    assert IssueLinks(b, s, 2 * n + 6) == [] && SubstituteIssueLinks(b, s, 2 * n + 6) == [];
    assert IssueLinks(b, s, n + 1) == IssueLinks(b, s, n + 2);
    assert SubstituteIssueLinks(b, s, n + 1) == " " + SubstituteIssueLinks(b, s, n + 2);
  }

  /**
   * Replacing `x` everywhere in `x`, a space, `x` and a tail shorter than `x`
   * rewrites both copies and keeps the tail.
   */
  lemma ReplacePrefixTwice(x: string, t: string, r: string)
    requires |t| < |x| && x[0] != ' '
    ensures ReplaceAll(x + (" " + (x + t)), x, r) == r + (" " + (r + t))
  {
    ReplaceLeading(x, " " + (x + t), r);
    ReplaceSkip(' ', x + t, x, r);
    ReplaceLeading(x, t, r);
    ReplaceShorter(t, x, r);
  }

  /** The counterexample is the link to issue 6, a space, and that link again followed by `3/t`. */
  lemma CollidingShape(b: BbToGh)
    ensures CollidingLinks(b) == (IssueBase(b) + "6") + (" " + ((IssueBase(b) + "6") + "3/t"))
  {
    var base := IssueBase(b);
    var x := base + "6";
    var s2 := x + " ";
    AppendAssoc(s2 + base + "63", "/t", []);
    AppendAssoc(s2 + base, "63", "/t");
    assert "63" + "/t" == "6" + "3/t";
    AppendAssoc(s2, base, "6" + "3/t");
    AppendAssoc(base, "6", "3/t");
    AppendAssoc(x, " ", x + "3/t");
  }

  /** Replacing the link to issue 6 everywhere also rewrites the front of the link to issue 63. */
  lemma CollidingReplaced(b: BbToGh)
    requires ' ' !in b.bbUrl
    ensures ReplaceAll(CollidingLinks(b), IssueBase(b) + "6", "#6") == "#6 #63/t"
  {
    var x := IssueBase(b) + "6";
    CollidingShape(b);
    IssueBaseNoSpace(b);
    assert x[0] == IssueBase(b)[0];
    ReplacePrefixTwice(x, "3/t", "#6");
    assert "#6" + (" " + ("#6" + "3/t")) == "#6 #63/t";
  }

  /**
   * For every repository URL (without spaces), replacing the shorter link
   * `.../issue/6` everywhere also rewrites the front of `.../issue/63/t`,
   * whose own replacement then finds nothing: the slug survives as `#63/t`.
   * Substituting in place gives `#6 #63`.
   */
  lemma IssueLinkPrefixCollision(b: BbToGh)
    requires ' ' !in b.bbUrl
    ensures ReplaceIssueLinks(b, CollidingLinks(b), IssueLinks(b, CollidingLinks(b), 0)) == "#6 #63/t"
    ensures SubstituteIssueLinks(b, CollidingLinks(b), 0) == "#6 #63"
  {
    var s := CollidingLinks(b);
    CollidingLinksFound(b);
    var six, sixtyThree := IssueLink("6", ""), IssueLink("63", "/t");
    ReplaceTwoIssueLinks(b, s, six, sixtyThree);
    assert IssueLinkText(b, six) == IssueBase(b) + "6";
    assert "#" + six.id == "#6" && "#" + sixtyThree.id == "#63";
    CollidingReplaced(b);
    ReplaceAbsent("#6 #63/t", IssueLinkText(b, sixtyThree), "#63");
  }

  lemma ReplaceTwoIssueLinks(b: BbToGh, s: string, first: IssueLink, second: IssueLink)
    ensures ReplaceIssueLinks(b, s, [first, second])
      == ReplaceAll(ReplaceAll(s, IssueLinkText(b, first), "#" + first.id), IssueLinkText(b, second), "#" + second.id)
  {
    assert [first, second][..1] == [first] && [first][..0] == [];
    assert ReplaceIssueLinks(b, s, [first]) == ReplaceAll(ReplaceIssueLinks(b, s, []), IssueLinkText(b, first), "#" + first.id);
  }

  // ---------------------------------------------------------------------------
  // convert_bb_pr_marker: `\b(pull request #(\d+))\b`

  const PrWords: string := "pull request #"

  function PrText(number: string): string { PrWords + number }

  function PrAt(s: string, i: nat): (r: Option<(string, nat)>)
    requires i <= |s|
    ensures r.Some? ==> i < r.value.1 <= |s|
  {
    if (i == 0 || !IsWordChar(s[i - 1])) && OccursAt(s, PrWords, i) then
      var j := i + |PrWords|;
      var e := Span(s, j, IsDigit);
      if e > j && (e == |s| || !IsWordChar(s[e])) then Some((s[j..e], e)) else None
    else None
  }

  /**
   * The scanner misses no pull request marker: wherever one starts as a
   * whole word, the match found there is its number.
   */
  lemma PrAtComplete(s: string, i: nat, number: string)
    requires IsDigits(number) && OccursAt(s, PrText(number), i)
    requires i == 0 || !IsWordChar(s[i - 1])
    requires var e := i + |PrText(number)|; e == |s| || !IsWordChar(s[e])
    ensures PrAt(s, i) == Some((number, i + |PrText(number)|))
  {
    var j := i + |PrWords|;
    var e := j + |number|;
    OccursAtSplit(s, PrWords, number, i);
    assert forall k :: j <= k < e ==> s[k] == number[k - j];
    SpanOfRun(s, j, e, IsDigit);
    assert s[j..e] == number;
  }

  /** The pull request numbers `re.findall` returns, from `i` on. */
  function PrNumbers(s: string, i: nat): seq<string>
    requires i <= |s|
    decreases |s| - i
  {
    if i == |s| then []
    else
      match PrAt(s, i)
      case Some(found) => [found.0] + PrNumbers(s, found.1)
      case None => PrNumbers(s, i + 1)
  }

  /** Every match is a number whose marker occurs in the content as a whole word. */
  lemma {:induction false} PrNumbersSound(s: string, i: nat)
    requires i <= |s|
    ensures forall n :: n in PrNumbers(s, i) ==> IsDigits(n) && Contains(s, PrText(n))
    decreases |s| - i
  {
    if i < |s| {
      match PrAt(s, i)
      case Some(found) =>
        var j := i + |PrWords|;
        assert s[i..found.1] == s[i..j] + s[j..found.1];
        assert OccursAt(s, PrText(found.0), i);
        PrNumbersSound(s, found.1);
      case None =>
        PrNumbersSound(s, i + 1);
    }
  }

  lemma {:induction false} PrNumbersAbsent(s: string, i: nat)
    requires i <= |s| && !Contains(s, PrWords)
    ensures PrNumbers(s, i) == []
    decreases |s| - i
  {
    if i < |s| {
      PrNumbersAbsent(s, i + 1);
    }
  }

  function PrLink(b: BbToGh, number: string): string { b.bbUrl + "/pull-request/" + number }

  function ReplacePrMarkers(b: BbToGh, content: string, numbers: seq<string>): string {
    if numbers == [] then content
    else
      var n := numbers[|numbers| - 1];
      ReplaceAll(ReplacePrMarkers(b, content, numbers[..|numbers| - 1]), PrText(n), PrLink(b, n))
  }

  /** `convert_bb_pr_marker`. */
  method ConvertBbPrMarker(b: BbToGh, content: string) returns (res: string)
    ensures res == ReplacePrMarkers(b, content, PrNumbers(content, 0))
  {
    var numbers := PrNumbers(content, 0);
    res := content;
    for i := 0 to |numbers|
      invariant res == ReplacePrMarkers(b, content, numbers[..i])
    {
      assert numbers[..i + 1][..i] == numbers[..i];
      res := ReplaceAll(res, PrText(numbers[i]), PrLink(b, numbers[i]));
    }
    assert numbers[..|numbers|] == numbers;
  }

  /** `pull request #N` on its own becomes the pull request's URL. */
  lemma SinglePrMarker(b: BbToGh, number: string)
    requires IsDigits(number)
    ensures ReplacePrMarkers(b, PrText(number), PrNumbers(PrText(number), 0)) == PrLink(b, number)
  {
    var s, j := PrText(number), |PrWords|;
    OccursAtFront(PrWords, number);
    assert forall k :: j <= k < |s| ==> s[k] == number[k - j];
    SpanOfRun(s, j, |s|, IsDigit);
    assert s[j..|s|] == number;
    assert PrAt(s, 0) == Some((number, |s|));
    assert PrNumbers(s, 0) == [number];
    ReplaceWhole(s, PrLink(b, number));
  }

  // ---------------------------------------------------------------------------
  // convert_all

  /**
   * The seven steps of `convert_all` in order, with the issue links
   * substituted in place. The source and user link converters are not part
   * of this model: they are parameters.
   */
  function ConvertedAll(b: BbToGh, content: string, srcLinks: string -> string, userLinks: string -> string): string {
    var normalized := NormalizeBbUrl(b, content);
    var markers := ReplaceMarkers(b, normalized, Markers(normalized, 0));
    var csets := ReplaceCsetLinks(b, markers, CsetLinks(b, markers, 0));
    var issues := SubstituteIssueLinks(b, csets, 0);
    var users := userLinks(srcLinks(issues));
    ReplacePrMarkers(b, users, PrNumbers(users, 0))
  }

  /** `convert_all`. */
  method ConvertAll(b: BbToGh, content: string, srcLinks: string -> string, userLinks: string -> string) returns (res: string)
    ensures res == ConvertedAll(b, content, srcLinks, userLinks)
  {
    res := NormalizeBbUrl(b, content);
    res := ConvertCsetMarker(b, res);
    res := ConvertBbCsetLink(b, res);
    res := SubstituteIssueLinks(b, res, 0);
    res := srcLinks(res);
    res := userLinks(res);
    res := ConvertBbPrMarker(b, res);
  }

  /**
   * Text with no http link, no repository URL, no `<<` and no pull request
   * marker comes through unchanged when the source and user converters
   * leave it alone.
   */
  lemma ConvertAllUnchanged(b: BbToGh, content: string, srcLinks: string -> string, userLinks: string -> string)
    requires !Contains(content, "http://") && !Contains(content, b.bbUrl)
    requires !Contains(content, "<<") && !Contains(content, PrWords)
    requires srcLinks(content) == content && userLinks(content) == content
    ensures ConvertedAll(b, content, srcLinks, userLinks) == content
  {
    NormalizeBbUrlUnchanged(b, content);
    MarkersAbsent(content, 0);
    ContainsPrefix(content, b.bbUrl, "/commits/");
    CsetLinksAbsent(b, content, 0);
    ContainsPrefix(content, b.bbUrl, "/issue/");
    IssueLinksUnchanged(b, content, 0);
    PrNumbersAbsent(content, 0);
  }
}
