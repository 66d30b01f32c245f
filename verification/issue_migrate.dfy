/**
 * The issue conversion of the migration to GitHub's issue import API:
 * placeholders for deleted issues, date conversion, the user and change
 * texts of comments, an issue's labels and closed state, and the cache of
 * GitHub milestones.
 */
module IssueMigrate {
  import opened Wrappers
  import opened Strings

  // ---------------------------------------------------------------------------
  // Issues and placeholders

  /**
   * The fields of a Bitbucket issue the conversion reads. `component`,
   * `version` and `milestone` hold the `name` of the object when there is
   * one; a milestone without a name is `Some("")`.
   */
  datatype BbIssue = BbIssue(
    id: int,
    title: string,
    state: string,
    priority: string,
    kind: Option<string>,
    component: Option<string>,
    version: Option<string>,
    createdOn: string,
    updatedOn: string,
    milestone: Option<string>)

  /** An entry of the issue stream: an exported issue, or a `DummyIssue` that holds only an id. */
  datatype Entry = Issue(issue: BbIssue) | DummyIssue(id: int) {
    function Id(): int {
      if Issue? then issue.id else id
    }
  }

  /** `DummyIssue(n)` for each `n` in `range(lo, hi)`. */
  function Dummies(lo: int, hi: int): seq<Entry> {
    seq(if lo < hi then hi - lo else 0, j => DummyIssue(lo + j))
  }

  function LastId(issues: seq<BbIssue>): int {
    if issues == [] then 0 else issues[|issues| - 1].id
  }

  /**
   * What `fill_gaps` yields: each issue, preceded by placeholders for the ids
   * strictly between the previous issue's id (0 at the start) and its own.
   */
  function Filled(issues: seq<BbIssue>): seq<Entry> {
    if issues == [] then []
    else
      var init := issues[..|issues| - 1];
      var last := issues[|issues| - 1];
      Filled(init) + Dummies(LastId(init) + 1, last.id) + [Issue(last)]
  }

  /** `fill_gaps`: the generator written out as a loop that collects what it yields. */
  method FillGaps(issues: seq<BbIssue>) returns (out: seq<Entry>)
    ensures out == Filled(issues)
  {
    out := [];
    var currentId := 0;
    for i := 0 to |issues|
      invariant out == Filled(issues[..i]) && currentId == LastId(issues[..i])
    {
      assert issues[..i + 1][..i] == issues[..i];
      var issueId := issues[i].id;
      ghost var start := out;
      var dummyId := currentId + 1;
      while dummyId < issueId
        invariant currentId + 1 <= dummyId && (dummyId <= issueId || dummyId == currentId + 1)
        invariant out == start + Dummies(currentId + 1, dummyId)
        decreases issueId - dummyId
      {
        assert Dummies(currentId + 1, dummyId + 1) == Dummies(currentId + 1, dummyId) + [DummyIssue(dummyId)];
        out := out + [DummyIssue(dummyId)];
        dummyId := dummyId + 1;
      }
      assert Dummies(currentId + 1, dummyId) == Dummies(currentId + 1, issueId);
      currentId := issueId;
      out := out + [Issue(issues[i])];
    }
    assert issues[..|issues|] == issues;
  }

  /** The exported issues among the entries, in order. */
  function Exported(entries: seq<Entry>): seq<BbIssue> {
    if entries == [] then []
    else
      var last := entries[|entries| - 1];
      Exported(entries[..|entries| - 1]) + (if last.Issue? then [last.issue] else [])
  }

  lemma {:induction false} ExportedConcat(a: seq<Entry>, b: seq<Entry>)
    ensures Exported(a + b) == Exported(a) + Exported(b)
    decreases |b|
  {
    if b == [] {
      assert a + b == a;
    } else {
      ExportedConcat(a, b[..|b| - 1]);
      assert (a + b)[..|a + b| - 1] == a + b[..|b| - 1];
    }
  }

  lemma {:induction false} ExportedDummies(lo: int, hi: int)
    ensures Exported(Dummies(lo, hi)) == []
    decreases hi - lo
  {
    if lo < hi {
      ExportedDummies(lo, hi - 1);
      assert Dummies(lo, hi)[..|Dummies(lo, hi)| - 1] == Dummies(lo, hi - 1);
    }
  }

  /** Every issue comes out unchanged, in its order, whatever the ids: only placeholders are added. */
  lemma {:induction false} FillGapsKeepsIssues(issues: seq<BbIssue>)
    ensures Exported(Filled(issues)) == issues
  {
    if issues != [] {
      var init := issues[..|issues| - 1];
      var last := issues[|issues| - 1];
      FillGapsKeepsIssues(init);
      ExportedConcat(Filled(init) + Dummies(LastId(init) + 1, last.id), [Issue(last)]);
      ExportedConcat(Filled(init), Dummies(LastId(init) + 1, last.id));
      ExportedDummies(LastId(init) + 1, last.id);
      assert Exported([Issue(last)]) == [last] by {
        assert [Issue(last)][..0] == [];
      }
      assert issues == init + [last];
    }
  }

  /** Positive ids in strictly increasing order. */
  predicate Increasing(issues: seq<BbIssue>) {
    && (forall i :: 0 <= i < |issues| ==> issues[i].id > 0)
    && (forall i, j :: 0 <= i < j < |issues| ==> issues[i].id < issues[j].id)
  }

  /**
   * For positive, strictly increasing ids the stream is numbered densely
   * from 1 to the last id, and each issue sits at the position of its id.
   */
  lemma {:induction false} FillGapsDense(issues: seq<BbIssue>)
    requires Increasing(issues)
    ensures |Filled(issues)| == LastId(issues)
    ensures forall j :: 0 <= j < |Filled(issues)| ==> Filled(issues)[j].Id() == j + 1
    ensures forall i :: 0 <= i < |issues| ==> Filled(issues)[issues[i].id - 1] == Issue(issues[i])
  {
    if issues != [] {
      var init := issues[..|issues| - 1];
      var last := issues[|issues| - 1];
      assert Increasing(init);
      FillGapsDense(init);
      assert LastId(init) < last.id;
      var f := Filled(init);
      var d := Dummies(LastId(init) + 1, last.id);
      assert Filled(issues) == f + d + [Issue(last)];
      assert |d| == last.id - LastId(init) - 1;
      forall i | 0 <= i < |issues|
        ensures Filled(issues)[issues[i].id - 1] == Issue(issues[i])
      {
        if i < |issues| - 1 {
          assert issues[i] == init[i];
          assert issues[i].id <= LastId(init);
        }
      }
    }
  }

  /** A position no issue's id names holds a placeholder. */
  lemma GapsArePlaceholders(issues: seq<BbIssue>, j: nat)
    requires Increasing(issues) && j < |Filled(issues)|
    requires forall i :: 0 <= i < |issues| ==> issues[i].id != j + 1
    ensures Filled(issues)[j] == DummyIssue(j + 1)
  {
    FillGapsDense(issues);
    FilledEntriesFromInput(issues);
  }

  /** Every exported entry is one of the input issues. */
  lemma {:induction false} FilledEntriesFromInput(issues: seq<BbIssue>)
    ensures forall j :: 0 <= j < |Filled(issues)| && Filled(issues)[j].Issue? ==> Filled(issues)[j].issue in issues
  {
    if issues != [] {
      var init := issues[..|issues| - 1];
      FilledEntriesFromInput(init);
      assert forall x :: x in init ==> x in issues;
    }
  }

  // ---------------------------------------------------------------------------
  // convert_date

  /**
   * A Bitbucket timestamp's date and time part, `\d\d\d\d-\d\d-\d\dT\d\d:\d\d:\d\d`
   * with ASCII digits.
   */
  predicate Stamp(t: string) {
    && |t| == 19
    && IsDigit(t[0]) && IsDigit(t[1]) && IsDigit(t[2]) && IsDigit(t[3]) && t[4] == '-'
    && IsDigit(t[5]) && IsDigit(t[6]) && t[7] == '-'
    && IsDigit(t[8]) && IsDigit(t[9]) && t[10] == 'T'
    && IsDigit(t[11]) && IsDigit(t[12]) && t[13] == ':'
    && IsDigit(t[14]) && IsDigit(t[15]) && t[16] == ':'
    && IsDigit(t[17]) && IsDigit(t[18])
  }

  predicate StampAt(s: string, i: nat) {
    i + 19 <= |s| && Stamp(s[i..i + 19])
  }

  /** A UTC `date-time` of section 5.6 of RFC 3339 with whole seconds: `YYYY-MM-DDTHH:MM:SSZ`. */
  predicate GithubDate(d: string) {
    |d| == 20 && Stamp(d[..19]) && d[19] == 'Z'
  }

  /** Where `re.search` finds the pattern: the first index from `from` on. */
  function FirstStamp(s: string, from: nat): (r: Option<nat>)
    ensures r.Some? ==> from <= r.value && StampAt(s, r.value)
    ensures r.Some? ==> forall i: nat :: from <= i < r.value ==> !StampAt(s, i)
    ensures r.None? ==> forall i: nat :: from <= i ==> !StampAt(s, i)
    decreases |s| - from
  {
    if from + 19 > |s| then None
    else if StampAt(s, from) then Some(from)
    else FirstStamp(s, from + 1)
  }

  /** `convert_date`: the first match's date, `T`, its time and `Z`; a `RuntimeError` when nothing matches. */
  function ConvertDate(bbDate: string): Result<string> {
    match FirstStamp(bbDate, 0)
    case None => Err(RuntimeError("Could not parse date: " + bbDate))
    case Some(i) => Ok(bbDate[i..i + 10] + "T" + bbDate[i + 11..i + 19] + "Z")
  }

  /**
   * The conversion fails exactly when no timestamp occurs; otherwise it is the
   * first timestamp with a `Z` appended, in GitHub's format.
   */
  lemma ConvertDateMeaning(bbDate: string)
    ensures ConvertDate(bbDate).Err? <==> forall i: nat :: !StampAt(bbDate, i)
    ensures ConvertDate(bbDate).Ok? ==>
      exists i: nat :: StampAt(bbDate, i) && (forall k: nat :: k < i ==> !StampAt(bbDate, k))
        && ConvertDate(bbDate).value == bbDate[i..i + 19] + "Z"
    ensures ConvertDate(bbDate).Ok? ==> GithubDate(ConvertDate(bbDate).value)
  {
    var r := FirstStamp(bbDate, 0);
    if r.Some? {
      var i := r.value;
      var d := bbDate[i..i + 10] + "T" + bbDate[i + 11..i + 19] + "Z";
      assert d[..19] == bbDate[i..i + 19];
      assert d == bbDate[i..i + 19] + "Z";
    }
  }

  /** A date already in GitHub's format converts to itself. */
  lemma ConvertDateIdempotent(d: string)
    requires GithubDate(d)
    ensures ConvertDate(d) == Ok(d)
  {
    assert d[0..19] == d[..19];
    assert StampAt(d, 0);
    assert d[0..10] + "T" + d[11..19] + "Z" == d;
  }

  // ---------------------------------------------------------------------------
  // format_user

  /**
   * The user argument: `None`, a bare nickname (anything that is not a
   * dict), or a dict with a nickname, a display name and possibly a
   * `links.html.href` profile link.
   */
  datatype User = NoUser | Nickname(name: string) | Profile(nickname: string, displayName: string, href: Option<string>)

  /** The GitHub user name a Bitbucket nickname maps to (`bb_gh_user_mapping`). */
  type UserMapping = map<string, string>

  /** The nickname, display name and profile link `format_user` works with; a bare nickname is both names. */
  function AsProfile(u: User): User
    requires !u.NoUser?
  {
    if u.Nickname? then Profile(u.name, u.name, None) else u
  }

  function ProfileUrl(p: User): string
    requires p.Profile?
  {
    p.href.GetOr("https://bitbucket.org/" + p.nickname)
  }

  function BitbucketLink(nickname: string, profileUrl: string): string {
    "Bitbucket: [" + nickname + "](" + profileUrl + ")"
  }

  function GithubLink(ghUser: string): string {
    ", GitHub: [" + ghUser + "](https://github.com/" + ghUser + ")"
  }

  /** `format_user`: "Anonymous", or the display name with the Bitbucket link and, when mapped, the GitHub link. */
  function FormatUser(u: User, mapping: UserMapping): string {
    if u.NoUser? then "Anonymous"
    else
      var p := AsProfile(u);
      var bbUser := BitbucketLink(p.nickname, ProfileUrl(p));
      var ghUser := if p.nickname in mapping then GithubLink(mapping[p.nickname]) else "";
      p.displayName + " (" + bbUser + ghUser + ")"
  }

  /** Only a missing user is "Anonymous"; any user's text is longer. */
  lemma FormatUserAnonymous(u: User, mapping: UserMapping)
    ensures FormatUser(u, mapping) == "Anonymous" <==> u.NoUser?
    ensures !u.NoUser? ==> |FormatUser(u, mapping)| > |"Anonymous"|
  {
  }

  /**
   * A user's text starts with the display name and the Bitbucket link, and
   * ends with the GitHub link for a mapped nickname and with the Bitbucket
   * link otherwise.
   */
  lemma FormatUserLinks(u: User, mapping: UserMapping)
    requires !u.NoUser?
    ensures var p := AsProfile(u);
      && StartsWith(FormatUser(u, mapping), p.displayName + " (" + BitbucketLink(p.nickname, ProfileUrl(p)))
      && (p.nickname in mapping ==> EndsWith(FormatUser(u, mapping), GithubLink(mapping[p.nickname]) + ")"))
      && (p.nickname !in mapping ==> EndsWith(FormatUser(u, mapping), BitbucketLink(p.nickname, ProfileUrl(p)) + ")"))
  {
    var p := AsProfile(u);
    var bbUser := BitbucketLink(p.nickname, ProfileUrl(p));
    var ghUser := if p.nickname in mapping then GithubLink(mapping[p.nickname]) else "";
    ConcatEnds3(p.displayName + " (" + bbUser, ghUser, ")");
    if p.nickname !in mapping {
      assert p.displayName + " (" + bbUser + ghUser == p.displayName + " (" + bbUser;
      ConcatEnds3(p.displayName + " (", bbUser, ")");
    }
  }

  // ---------------------------------------------------------------------------
  // format_change_element and the change string of a comment

  /** One entry of a change's `changes`: its type and `old`/`new` texts (a missing or `None` text is ""). */
  datatype Change = Change(changeType: string, oldText: string, newText: string)

  function ChangedText(changeType: string, before: string, after: string): string {
    "changed " + changeType + " from \"" + before + "\" to \"" + after + "\"\n"
  }

  function RemovedText(changeType: string, before: string): string {
    "removed \"" + before + "\" " + changeType + "\n"
  }

  function SetText(changeType: string, after: string): string {
    "set " + changeType + " to \"" + after + "\"\n"
  }

  /** Each template starts with its own words, and none is empty. */
  lemma TemplatesStart(changeType: string, before: string, after: string)
    ensures StartsWith(ChangedText(changeType, before, after), "changed " + changeType + " from \"")
    ensures StartsWith(RemovedText(changeType, before), "removed \"")
    ensures StartsWith(SetText(changeType, after), "set " + changeType + " to \"")
  {
    var changed := "changed " + changeType + " from \"";
    ConcatEnds(changed, before);
    StartsWithExtend(changed + before, changed, "\" to \"");
    StartsWithExtend(changed + before + "\" to \"", changed, after);
    StartsWithExtend(changed + before + "\" to \"" + after, changed, "\"\n");
    ConcatEnds("removed \"", before);
    StartsWithExtend("removed \"" + before, "removed \"", "\" ");
    StartsWithExtend("removed \"" + before + "\" ", "removed \"", changeType);
    StartsWithExtend("removed \"" + before + "\" " + changeType, "removed \"", "\n");
    var setWords := "set " + changeType + " to \"";
    ConcatEnds(setWords, after);
    StartsWithExtend(setWords + after, setWords, "\"\n");
  }

  /** `format_change_element`: `None` when there is nothing to say. */
  function FormatChangeElement(c: Change, mapping: UserMapping): Option<string> {
    if c.changeType == "content" then Some("Edited issue description")
    else
      var before := if c.changeType == "assignee" && c.oldText != "" then FormatUser(Nickname(c.oldText), mapping) else c.oldText;
      var after := if c.changeType == "assignee" && c.newText != "" then FormatUser(Nickname(c.newText), mapping) else c.newText;
      if before != "" && after != "" then Some(ChangedText(c.changeType, before, after))
      else if before != "" then Some(RemovedText(c.changeType, before))
      else if after != "" then Some(SetText(c.changeType, after))
      else None
  }

  /**
   * A change is described unless it is not the description and has neither
   * an old nor a new text; the three templates follow which of the two are
   * set.
   */
  lemma FormatChangeCases(c: Change, mapping: UserMapping)
    ensures FormatChangeElement(c, mapping).None? <==> c.changeType != "content" && c.oldText == "" && c.newText == ""
    ensures FormatChangeElement(c, mapping).Some? ==> FormatChangeElement(c, mapping).value != ""
    ensures c.changeType != "content" && c.oldText != "" && c.newText != "" ==>
      StartsWith(FormatChangeElement(c, mapping).value, "changed " + c.changeType + " from \"")
    ensures c.changeType != "content" && c.oldText != "" && c.newText == "" ==>
      StartsWith(FormatChangeElement(c, mapping).value, "removed \"")
    ensures c.changeType != "content" && c.oldText == "" && c.newText != "" ==>
      StartsWith(FormatChangeElement(c, mapping).value, "set " + c.changeType + " to \"")
  {
    if c.changeType != "content" {
      FormatUserAnonymous(Nickname(c.oldText), mapping);
      FormatUserAnonymous(Nickname(c.newText), mapping);
      var before := if c.changeType == "assignee" && c.oldText != "" then FormatUser(Nickname(c.oldText), mapping) else c.oldText;
      var after := if c.changeType == "assignee" && c.newText != "" then FormatUser(Nickname(c.newText), mapping) else c.newText;
      TemplatesStart(c.changeType, before, after);
    }
  }

  /** The bullet of one change: `* ` and its text, or nothing when it has no (or an empty) text. */
  function Bullet(formatted: Option<string>): string {
    if formatted.Some? && formatted.value != "" then "* " + formatted.value else ""
  }

  /** The bullets of a comment's changes, in order. */
  function ChangeLines(changes: seq<Change>, mapping: UserMapping): string {
    if changes == [] then ""
    else ChangeLines(changes[..|changes| - 1], mapping) + Bullet(FormatChangeElement(changes[|changes| - 1], mapping))
  }

  /** What `format_change_element` describes: the description, or a change with an old or a new text. */
  predicate Mentioned(c: Change) {
    c.changeType == "content" || c.oldText != "" || c.newText != ""
  }

  /** A change gets a bullet exactly when it is described. */
  lemma BulletIffMentioned(c: Change, mapping: UserMapping)
    ensures Bullet(FormatChangeElement(c, mapping)) == "" <==> !Mentioned(c)
  {
    FormatChangeCases(c, mapping);
  }

  /** The change string of `format_comment_body`: the bullets between newlines, or nothing. */
  function ChangeString(changes: seq<Change>, mapping: UserMapping): string {
    var lines := ChangeLines(changes, mapping);
    if lines != "" then "\n" + lines + "\n" else ""
  }

  /** A comment mentions its changes exactly when at least one of them is described. */
  lemma ChangeStringEmpty(changes: seq<Change>, mapping: UserMapping)
    ensures ChangeString(changes, mapping) == "" <==> forall i :: 0 <= i < |changes| ==> !Mentioned(changes[i])
  {
    ChangeLinesEmpty(changes, mapping);
  }

  lemma {:induction false} ChangeLinesEmpty(changes: seq<Change>, mapping: UserMapping)
    ensures ChangeLines(changes, mapping) == "" <==> forall i :: 0 <= i < |changes| ==> !Mentioned(changes[i])
  {
    if changes != [] {
      var init := changes[..|changes| - 1];
      var last := changes[|changes| - 1];
      ChangeLinesEmpty(init, mapping);
      BulletIffMentioned(last, mapping);
      assert ChangeLines(changes, mapping) == ChangeLines(init, mapping) + Bullet(FormatChangeElement(last, mapping));
      assert forall i :: 0 <= i < |init| ==> init[i] == changes[i];
    }
  }

  // ---------------------------------------------------------------------------
  // Labels and the closed state

  /** A component, kind or version as a GitHub label: commas removed, cut to 50 characters. */
  function LabelOf(v: string): string {
    Take(RemoveChar(v, ','), 50)
  }

  function LabelsOf(v: Option<string>): seq<string> {
    if v.Some? then [LabelOf(v.value)] else []
  }

  /** The priority, then the component, kind and version that are set. */
  function Labels(issue: BbIssue): seq<string> {
    [issue.priority] + LabelsOf(issue.component) + LabelsOf(issue.kind) + LabelsOf(issue.version)
  }

  function Count(v: Option<string>): nat {
    if v.Some? then 1 else 0
  }

  /**
   * The first label is the priority; one label follows for each of component,
   * kind and version that is set, in that order, with no comma and at most
   * 50 characters, a prefix of the comma-free name.
   */
  lemma LabelsShape(issue: BbIssue)
    ensures var labels := Labels(issue);
      && |labels| == 1 + Count(issue.component) + Count(issue.kind) + Count(issue.version)
      && labels[0] == issue.priority
      && (issue.component.Some? ==> labels[1] == LabelOf(issue.component.value))
      && (forall j :: 1 <= j < |labels| ==> ',' !in labels[j] && |labels[j]| <= 50)
  {
    var a, b, c := LabelsOf(issue.component), LabelsOf(issue.kind), LabelsOf(issue.version);
    LabelsOfClean(issue.component);
    LabelsOfClean(issue.kind);
    LabelsOfClean(issue.version);
    var labels := Labels(issue);
    forall j | 1 <= j < |labels|
      ensures ',' !in labels[j] && |labels[j]| <= 50
    {
      assert labels[j] in a + b + c;
    }
  }

  lemma LabelsOfClean(v: Option<string>)
    ensures forall x :: x in LabelsOf(v) ==> ',' !in x && |x| <= 50
  {
    if v.Some? {
      RemoveCharSpec(v.value, ',', ',');
    }
  }

  /** A label holds the comma-free name when that is short enough, and otherwise its first 50 characters. */
  lemma LabelOfMeaning(v: string)
    ensures LabelOf(v) <= RemoveChar(v, ',')
    ensures |RemoveChar(v, ',')| <= 50 ==> LabelOf(v) == RemoveChar(v, ',')
    ensures |RemoveChar(v, ',')| > 50 ==> |LabelOf(v)| == 50
  {
  }

  /** The states an open issue has; every other state is closed. */
  predicate OpenState(state: string) {
    state == "open" || state == "new" || state == "on hold"
  }

  /** The states a closing change starts from: the open ones and the empty state. */
  predicate OpenLike(state: string) {
    state == "" || OpenState(state)
  }

  /** A change of an issue: when it was made, and its state transition if it has one. */
  datatype IssueChange = IssueChange(createdOn: string, state: Option<StateChange>)
  datatype StateChange = StateChange(fromState: string, toState: string)

  predicate Closes(c: IssueChange) {
    c.state.Some? && OpenLike(c.state.value.fromState) && !OpenLike(c.state.value.toState)
  }

  /** The converted dates of the closing changes, in order; the first date that fails to convert raises. */
  function ClosingDates(changes: seq<IssueChange>): Result<seq<string>> {
    if changes == [] then Ok([])
    else
      var last := changes[|changes| - 1];
      match ClosingDates(changes[..|changes| - 1])
      case Err(e) => Err(e)
      case Ok(dates) =>
        if !Closes(last) then Ok(dates)
        else
          match ConvertDate(last.createdOn)
          case Err(e) => Err(e)
          case Ok(d) => Ok(dates + [d])
  }

  /** `sorted(dates)[-1]`: the greatest date in code-point order. */
  function Latest(dates: seq<string>): string
    requires dates != []
  {
    if |dates| == 1 then dates[0]
    else
      var m := Latest(dates[..|dates| - 1]);
      if Less(m, dates[|dates| - 1]) then dates[|dates| - 1] else m
  }

  lemma {:induction false} LatestIsGreatest(dates: seq<string>)
    requires dates != []
    ensures Latest(dates) in dates
    ensures forall i :: 0 <= i < |dates| ==> LessEq(dates[i], Latest(dates))
  {
    if |dates| > 1 {
      var init := dates[..|dates| - 1];
      var last := dates[|dates| - 1];
      LatestIsGreatest(init);
      var m := Latest(init);
      assert Latest(dates) == if Less(m, last) then last else m;
      forall i | 0 <= i < |dates|
        ensures LessEq(dates[i], Latest(dates))
      {
        if i == |dates| - 1 {
          LessIrreflexive(last);
        } else {
          assert dates[i] == init[i];
          if Less(m, last) && Less(last, dates[i]) {
            LessTransitive(m, last, dates[i]);
          }
        }
      }
    } else {
      LessIrreflexive(dates[0]);
    }
  }

  /** `closed_at` of a closed issue: the latest closing date, or the raw `updated_on` when no change closed it. */
  function ClosedAt(updatedOn: string, changes: seq<IssueChange>): Result<string> {
    match ClosingDates(changes)
    case Err(e) => Err(e)
    case Ok(dates) => Ok(if dates == [] then updatedOn else Latest(dates))
  }

  /** The closing dates are exactly the converted dates of the closing changes. */
  lemma {:induction false} ClosingDatesMeaning(changes: seq<IssueChange>)
    ensures ClosingDates(changes).Ok? <==> forall i :: 0 <= i < |changes| && Closes(changes[i]) ==> ConvertDate(changes[i].createdOn).Ok?
    ensures ClosingDates(changes).Ok? ==>
      (forall d :: d in ClosingDates(changes).value <==>
        exists i :: 0 <= i < |changes| && Closes(changes[i]) && ConvertDate(changes[i].createdOn) == Ok(d))
  {
    if changes != [] {
      var init := changes[..|changes| - 1];
      var last := changes[|changes| - 1];
      ClosingDatesMeaning(init);
      assert forall i :: 0 <= i < |init| ==> init[i] == changes[i];
      if ClosingDates(changes).Ok? {
        var dates := ClosingDates(changes).value;
        forall d | d in dates
          ensures exists i :: 0 <= i < |changes| && Closes(changes[i]) && ConvertDate(changes[i].createdOn) == Ok(d)
        {
          if d !in ClosingDates(init).value {
            assert ConvertDate(changes[|changes| - 1].createdOn) == Ok(d);
          }
        }
      }
    }
  }

  /**
   * `closed_at` is the raw `updated_on` when no change closed the issue, and
   * otherwise the converted date of a closing change that no other closing
   * change's date exceeds.
   */
  lemma ClosedAtMeaning(updatedOn: string, changes: seq<IssueChange>)
    ensures ClosedAt(updatedOn, changes).Ok? ==>
      var r := ClosedAt(updatedOn, changes).value;
      || ((forall i :: 0 <= i < |changes| ==> !Closes(changes[i])) && r == updatedOn)
      || ((exists i :: 0 <= i < |changes| && Closes(changes[i]) && ConvertDate(changes[i].createdOn) == Ok(r))
          && forall i :: 0 <= i < |changes| && Closes(changes[i]) && ConvertDate(changes[i].createdOn).Ok? ==>
               LessEq(ConvertDate(changes[i].createdOn).value, r))
  {
    ClosingDatesMeaning(changes);
    if ClosingDates(changes).Ok? {
      var dates := ClosingDates(changes).value;
      if dates != [] {
        LatestIsGreatest(dates);
        forall i | 0 <= i < |changes| && Closes(changes[i]) && ConvertDate(changes[i].createdOn).Ok?
          ensures LessEq(ConvertDate(changes[i].createdOn).value, Latest(dates))
        {
          var d := ConvertDate(changes[i].createdOn).value;
          assert d in dates;
          var j :| 0 <= j < |dates| && dates[j] == d;
        }
      } else {
        forall i | 0 <= i < |changes|
          ensures !Closes(changes[i])
        {
        }
      }
    }
  }

  // ---------------------------------------------------------------------------
  // GitHub milestones

  /**
   * `GithubMilestones`: GitHub's milestone numbers by title, loaded when it
   * is made, with a ghost log of the titles it created since.
   */
  class GithubMilestones {
    var titleToNumber: map<string, int>
    ghost var created: seq<string>

    /** Every created title is cached, and none was created twice. */
    ghost predicate Valid()
      reads this
    {
      && (forall i :: 0 <= i < |created| ==> created[i] in titleToNumber)
      && (forall i, j :: 0 <= i < j < |created| ==> created[i] != created[j])
    }

    /** `__init__` with `refresh`: the milestones the repository already has. */
    constructor (loaded: map<string, int>)
      ensures Valid() && titleToNumber == loaded && created == []
    {
      titleToNumber := loaded;
      created := [];
    }

    /**
     * `ensure`: a known title's number without calling `create`; for an
     * unknown title, `create` is called once and its number cached. A failing
     * `create` raises and caches nothing.
     */
    method Ensure(title: string, create: string -> Result<int>) returns (number: Result<int>)
      requires Valid()
      modifies this
      ensures Valid()
      ensures title in old(titleToNumber) ==>
        number == Ok(old(titleToNumber)[title]) && titleToNumber == old(titleToNumber) && created == old(created)
      ensures title !in old(titleToNumber) ==> number == create(title)
      ensures title !in old(titleToNumber) && number.Ok? ==>
        titleToNumber == old(titleToNumber)[title := number.value] && created == old(created) + [title]
      ensures title !in old(titleToNumber) && number.Err? ==>
        titleToNumber == old(titleToNumber) && created == old(created)
      ensures number.Ok? ==> title in titleToNumber && titleToNumber[title] == number.value
    {
      if title in titleToNumber {
        return Ok(titleToNumber[title]);
      }
      number := create(title);
      if number.Err? {
        return;
      }
      titleToNumber := titleToNumber[title := number.value];
      created := created + [title];
    }
  }

  // ---------------------------------------------------------------------------
  // convert_issue

  const DeletedTitle: string := "Deleted issue"
  const DeletedBody: string := "This issue was deleted on BitBucket and was thus not migrated to GitHub"

  /**
   * The converted issue: a placeholder's fixed closed issue, or an exported
   * issue's title, closed state, dates, labels, closing date (closed issues
   * only) and milestone number. The issue body is not part of this model.
   */
  datatype GhIssue =
    | Deleted(title: string, body: string, closed: bool)
    | Imported(title: string, closed: bool, createdAt: string, updatedAt: string, labels: seq<string>,
               closedAt: Option<string>, milestone: Option<int>)

  /** `milestone and milestone['name']`. */
  predicate HasMilestone(issue: BbIssue) {
    issue.milestone.Some? && issue.milestone.value != ""
  }

  /** Everything `convert_issue` computes before it looks up the milestone, with the first exception raised. */
  function ConvertedFields(issue: BbIssue, changes: seq<IssueChange>): Result<GhIssue> {
    var closed := !OpenState(issue.state);
    match ConvertDate(issue.createdOn)
    case Err(e) => Err(e)
    case Ok(createdAt) =>
      match ConvertDate(issue.updatedOn)
      case Err(e) => Err(e)
      case Ok(updatedAt) =>
        if !closed then Ok(Imported(issue.title, false, createdAt, updatedAt, Labels(issue), None, None))
        else
          match ClosedAt(issue.updatedOn, changes)
          case Err(e) => Err(e)
          case Ok(closedAt) => Ok(Imported(issue.title, true, createdAt, updatedAt, Labels(issue), Some(closedAt), None))
  }

  /**
   * An issue converts exactly when both its dates and, if it is closed, every
   * closing change's date convert; it is closed exactly when its state is not
   * an open one, and only then has a closing date.
   */
  lemma ConvertedFieldsMeaning(issue: BbIssue, changes: seq<IssueChange>)
    ensures ConvertedFields(issue, changes).Ok? <==>
      && ConvertDate(issue.createdOn).Ok? && ConvertDate(issue.updatedOn).Ok?
      && (!OpenState(issue.state) ==> forall i :: 0 <= i < |changes| && Closes(changes[i]) ==> ConvertDate(changes[i].createdOn).Ok?)
    ensures ConvertedFields(issue, changes).Ok? ==>
      var g := ConvertedFields(issue, changes).value;
      && g.Imported? && g.title == issue.title && g.labels == Labels(issue)
      && (g.closed <==> !OpenState(issue.state))
      && (g.closedAt.Some? <==> g.closed)
      && GithubDate(g.createdAt) && GithubDate(g.updatedAt)
  {
    ClosingDatesMeaning(changes);
    ConvertDateMeaning(issue.createdOn);
    ConvertDateMeaning(issue.updatedOn);
  }

  /**
   * `convert_issue` without the body: a placeholder becomes the fixed deleted
   * issue; an exported issue gets its fields, and then, when it names a
   * milestone, the milestone's number from `ensure`.
   */
  method ConvertIssue(entry: Entry, changes: seq<IssueChange>, milestones: GithubMilestones, create: string -> Result<int>)
    returns (r: Result<GhIssue>)
    requires milestones.Valid()
    modifies milestones
    ensures milestones.Valid()
    ensures entry.DummyIssue? ==> r == Ok(Deleted(DeletedTitle, DeletedBody, true))
    ensures entry.DummyIssue? || ConvertedFields(entry.issue, changes).Err? || !HasMilestone(entry.issue) ==>
      milestones.titleToNumber == old(milestones.titleToNumber) && milestones.created == old(milestones.created)
    ensures entry.Issue? && ConvertedFields(entry.issue, changes).Err? ==> r == ConvertedFields(entry.issue, changes)
    ensures entry.Issue? && ConvertedFields(entry.issue, changes).Ok? && !HasMilestone(entry.issue) ==>
      r == ConvertedFields(entry.issue, changes)
    ensures entry.Issue? && ConvertedFields(entry.issue, changes).Ok? && HasMilestone(entry.issue) ==>
      var name := entry.issue.milestone.value;
      var fields := ConvertedFields(entry.issue, changes).value;
      && (r.Err? <==> name !in old(milestones.titleToNumber) && create(name).Err?)
      && (r.Ok? ==> name in milestones.titleToNumber && r.value == fields.(milestone := Some(milestones.titleToNumber[name])))
      && (name in old(milestones.titleToNumber) ==>
            && r == Ok(fields.(milestone := Some(old(milestones.titleToNumber)[name])))
            && milestones.titleToNumber == old(milestones.titleToNumber) && milestones.created == old(milestones.created))
      && (name !in old(milestones.titleToNumber) && create(name).Ok? ==>
            && r == Ok(fields.(milestone := Some(create(name).value)))
            && milestones.titleToNumber == old(milestones.titleToNumber)[name := create(name).value]
            && milestones.created == old(milestones.created) + [name])
      && (name !in old(milestones.titleToNumber) && create(name).Err? ==>
            && r == Err(create(name).error)
            && milestones.titleToNumber == old(milestones.titleToNumber) && milestones.created == old(milestones.created))
  {
    if entry.DummyIssue? {
      return Ok(Deleted(DeletedTitle, DeletedBody, true));
    }
    var issue := entry.issue;
    r := ConvertedFields(issue, changes);
    if r.Err? || !HasMilestone(issue) {
      return;
    }
    var number := milestones.Ensure(issue.milestone.value, create);
    if number.Err? {
      return Err(number.error);
    }
    r := Ok(r.value.(milestone := Some(number.value)));
  }
}
