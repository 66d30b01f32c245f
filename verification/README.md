# bitbucket-hg-exporter, modelled in Dafny

bitbucket-hg-exporter archives a Bitbucket repository before its Mercurial
hosting ends. It has three parts, and this project models the core of each.

- **The API crawler** (`BitBucketExport` in `__main__.py`):
  - starts from the repository's API URL and rewrites each URL's query with
    the pagination rules;
  - stores every JSON reply under a path derived from the rewritten URL;
  - follows the `next` page, the embedded files and every API link it finds,
    skipping those that the ignore rules reject;
  - records each visit in a provenance tree whose cursor is a tuple of
    indices;
  - recognises an already-loaded file through the `DummyResponse` cache, so
    it is not crawled twice.

  `make_urls_relative` then copies the stored files to the publishing
  directory and points each JSON file's links at the local copies.
- **The issue migration** (`issue_migrate.py`):
  - fills the gaps in the issue numbering with placeholder issues;
  - converts Bitbucket dates, users, change descriptions, labels and closing
    dates into the form GitHub's import API takes;
  - creates missing milestones.
- **The Mercurial-to-git link rewriting** (`hg2git.py`):
  - matches the Mercurial and git logs on (date, description) to map each hg
    node to a git commit;
  - rewrites changeset markers, changeset links, issue links and pull request
    markers in issue text;
  - caches per-argument results with the `memoize` decorator.

Modules:

| module | file | what it holds |
|---|---|---|
| `Wrappers`, `Strings` | `wrappers.dfy`, `strings.dfy` | `Option`/`Result`, and the string operations Python provides: prefix/suffix tests, `str.replace`, `split`, `join`, `rstrip`, `strip` over `str.isspace`, code-point order |
| `RewriteRules` | `rewrite_rules.dfy` | `rewrite_url`: the parameter dictionary and the rule loops |
| `IgnoreRules` | `ignore_rules.dfy` | the ignore chain and the exporter's ignore table |
| `Locations` | `locations.dfy` | the endpoint, query, stored path and download path of a URL |
| `Provenance` | `provenance.dfy` | the provenance tree as a value, and the cursor |
| `Responses` | `responses.dfy` | the `DummyResponse` cache, a class |
| `Exporter` | `exporter.dfy` | the crawler, a class: the tree cursor, `download_file`, `get_and_save_json` and `make_urls_relative` |
| `IssueMigrate` | `issue_migrate.dfy` | `fill_gaps`, `convert_date`, `format_user`, `format_change_element`, `convert_issue`, and the `GithubMilestones` class |
| `Hg2Git` | `hg2git.dfy` | `BbToGh.__init__`, `find_hg_node`, `hgnode_to_githash` |
| `LinkRewrite` | `link_rewrite.dfy` | the `BbToGh` text converters and `convert_all` |
| `Memo` | `memo.dfy` | `memoize`, a class |

Calls into code outside the model are parameters, bundled in `Exporter.World`:

- the authenticated API query;
- the body of a plain download;
- the JSON parser together with the file-download and API-link patterns;
- `full_url_to_query`.

The disk is a class holding a map from path to contents. Dates are the
instants `dateutil` would parse. `re.findall` is modelled as a left-to-right
scan that yields non-overlapping matches, and `str.replace` as a
left-to-right replacement of non-overlapping occurrences.

## Model

| member | source | states |
|---|---|---|
| `Locations.BbEndpointToFullUrl` | bitbucket_hg_exporter/__main__.py:28-29 | the full URL is the API base URL followed by exactly the endpoint |
| `Locations.EndpointRoundTrip` | bitbucket_hg_exporter/__main__.py:723-725 | an endpoint without `?` and without the base URL comes back unchanged from its full URL after the base URL is removed and the text is cut at `?` |
| `Locations.QueryCutOff` | bitbucket_hg_exporter/__main__.py:723-725 | an endpoint followed by `?` and a query comes back as the bare endpoint |
| `Locations.EncodeEntry` | bitbucket_hg_exporter/__main__.py:731 | `urlencode(doseq=True)` gives a list value one pair per element and any other value one pair, each starting with the `quote_plus`-quoted key and `=` |
| `Locations.EncodeItems` | bitbucket_hg_exporter/__main__.py:731 | a list value gives the pairs `key=item`, one per item, in order, each item quoted with `quote_plus` |
| `Locations.Utf8` | bitbucket_hg_exporter/__main__.py:731 | a character's UTF-8 encoding is one to four octets, and a single octet, the code point itself, exactly for ASCII |
| `Locations.QuotePlus` | bitbucket_hg_exporter/__main__.py:731 | `quote_plus` output holds only unreserved characters, `+` and `%` |
| `Locations.QuotePlusKeepsUnreserved` | bitbucket_hg_exporter/__main__.py:731 | text made of unreserved characters is not changed by `quote_plus` |
| `Locations.IntTextUnchanged` | bitbucket_hg_exporter/__main__.py:731 | the text of an integer parameter, such as `page` or `pagelen`, is encoded as itself |
| `Locations.QuotePlusExamples` | bitbucket_hg_exporter/__main__.py:731 | a space becomes `+`, and a literal `+` becomes `%2B` |
| `Locations.QuotePlusRoundTrip` | bitbucket_hg_exporter/__main__.py:731 | `unquote_plus` undoes `quote_plus` on ASCII text |
| `Locations.EncodedPairRoundTrip` | bitbucket_hg_exporter/__main__.py:731 | an encoded ASCII pair holds no `&`, and its two sides, split at `=` and unquoted, give back the key and the value |
| `Locations.EncodePairsEmpty` | bitbucket_hg_exporter/__main__.py:731 | no pairs are encoded exactly when every parameter is an empty list |
| `Locations.UrlEncodeEmpty` | bitbucket_hg_exporter/__main__.py:731-738 | the query string, and with it the `?` of the rewritten URL, is empty exactly when every parameter is an empty list |
| `Locations.JoinPath` | bitbucket_hg_exporter/__main__.py:729 | `os.path.join` ends with the joined component |
| `Locations.EndpointPath` | bitbucket_hg_exporter/__main__.py:729-733 | the stored JSON path starts with the joined endpoint path and ends with the encoded query followed by `.json` |
| `Locations.RewrittenUrl` | bitbucket_hg_exporter/__main__.py:736-738 | the rewritten URL starts with the endpoint's full URL |
| `Locations.RewrittenUrlEndpoint` | bitbucket_hg_exporter/__main__.py:723-738 | crawling a rewritten URL again yields the same endpoint, because the appended query is cut off at its `?` |
| `Locations.PercentEncode` | bitbucket_hg_exporter/__main__.py:689 | percent-encoding each character's UTF-8 octets, the inverse of `parse.unquote`, at least triples the length, and exactly triples it for ASCII text |
| `Locations.PercentRoundTrip` | bitbucket_hg_exporter/__main__.py:689 | `parse.unquote` undoes percent-encoding of ASCII text |
| `Locations.RemoveCharsSpec` | bitbucket_hg_exporter/__main__.py:690-692 | after the special characters are removed one by one, none remains, and every other character is present exactly when it was before |
| `Locations.PlainHasNoSpecials` | bitbucket_hg_exporter/__main__.py:690-692 | a path of lower-case letters and slashes holds none of the special characters |
| `Locations.ColonFreeKeepsPrefixes` | bitbucket_hg_exporter/__main__.py:689 | each prefix that is stripped (API URL, `https://`, `http://`) holds a colon, so a colon-free text is left alone |
| `Locations.SanitisePath` | bitbucket_hg_exporter/__main__.py:686-692 | corrected computation (see Findings): the download path is the URL decoded with its encoded slashes of either case dropped, its prefixes stripped and its special characters removed, so it holds none of `?:\*<>"\|` |
| `Locations.NoDecodedSlashes` | bitbucket_hg_exporter/__main__.py:686-689 | decoding that drops encoded slashes yields exactly the slashes written literally in the URL, as the comment above the code intends |
| `Locations.LowerCaseSlashSurvives` | bitbucket_hg_exporter/__main__.py:689 | for `a%2fb`, which holds no literal slash, the code as written gives `a/b` and the corrected computation gives `ab` |
| `Locations.AsWrittenKeepsSlash` | bitbucket_hg_exporter/__main__.py:689 | removing only `%2F` and then decoding turns `a%2fb` into `a/b` |
| `Locations.CorrectedDropsSlash` | bitbucket_hg_exporter/__main__.py:689 | the corrected computation turns `a%2fb` into `ab` |
| `Locations.UpperCaseRemovalMisses` | bitbucket_hg_exporter/__main__.py:689 | `replace('%2F', '')` leaves `a%2fb` unchanged |
| `Locations.LowerCaseDecodes` | bitbucket_hg_exporter/__main__.py:689 | `unquote` decodes `%2f` to a slash, while the corrected decoding drops it |
| `RewriteRules.Lookup` | bitbucket_hg_exporter/__main__.py:664-672 | a dictionary lookup finds nothing exactly when the key is absent, and otherwise a value stored under the key |
| `RewriteRules.Set` | bitbucket_hg_exporter/__main__.py:681 | `params[k] = v` maps `k` to `v`, leaves every other key alone, and keeps the key order, adding `k` at the end when it is new |
| `RewriteRules.InsertAtEnd` | bitbucket_hg_exporter/__main__.py:681 | inserting a new key at the end maps it to its value and changes no other key |
| `RewriteRules.Delete` | bitbucket_hg_exporter/__main__.py:676-677 | `del params[k]` removes `k`, keeps every other key's value, and adds no entry |
| `RewriteRules.Update` | bitbucket_hg_exporter/__main__.py:675-681 | an update to `None` deletes a present key and otherwise assigns the value (even `None`), leaving other keys alone |
| `RewriteRules.RewriteUrl` | bitbucket_hg_exporter/__main__.py:653-683 | the endpoint is returned unchanged, and the parameters are those after every rule in order |
| `RewriteRules.RunRewrites` | bitbucket_hg_exporter/__main__.py:662-681 | the loop over a matching rule's rewrites applies each rewrite whose conditions hold, in order |
| `RewriteRules.FindEndpointMatch` | bitbucket_hg_exporter/__main__.py:656-660 | the loop over `endpoint_match` reports a match exactly when some matcher accepts the endpoint (literal equality, or a pattern with a match) |
| `RewriteRules.CheckConditions` | bitbucket_hg_exporter/__main__.py:663-672 | the loop over `params_match` succeeds exactly when every condition holds: `None` means absent or `None`, any other value means present and equal |
| `RewriteRules.ApplyUpdates` | bitbucket_hg_exporter/__main__.py:674-681 | the loop over `params_to_update` applies the updates in order |
| `RewriteRules.RulesCumulative` | bitbucket_hg_exporter/__main__.py:655 | applying `r1 + r2` is applying `r1` and then `r2` |
| `RewriteRules.UnmatchedRulesKeepParams` | bitbucket_hg_exporter/__main__.py:655-661 | rules whose matchers all reject the endpoint leave the parameters unchanged |
| `RewriteRules.DefaultRewrite` | bitbucket_hg_exporter/__main__.py:663-681 | a rewrite guarded by `{name: None}` fills in a missing or `None` value and keeps any other value |
| `RewriteRules.DefaultAppends` | bitbucket_hg_exporter/__main__.py:655-681 | a rule for the endpoint that defaults an absent parameter appends exactly that entry |
| `RewriteRules.PageDefaultsAccumulate` | bitbucket_hg_exporter/__main__.py:599-608 | defaulting `pagelen` to 100 and then `page` to 1 on an empty query gives both, in that order |
| `IgnoreRules.ShouldSkip` | bitbucket_hg_exporter/__main__.py:811-830 | skip exactly when some rule fires; the loop stops at the first rule that fires, and no earlier rule fires |
| `IgnoreRules.OrderIrrelevant` | bitbucket_hg_exporter/__main__.py:811-833 | whether a reference is skipped does not depend on the order of the rules, only on which rules there are |
| `IgnoreRules.FiringRuleDecides` | bitbucket_hg_exporter/__main__.py:829-830 | once a rule fires, the rules after it cannot keep the reference |
| `IgnoreRules.ExporterIgnoreRules` | bitbucket_hg_exporter/__main__.py:498-516 | the exporter's ignore table has its fourteen rules |
| `IgnoreRules.FirstSkipReason` | bitbucket_hg_exporter/__main__.py:498-516 | the first rule of the table that fires for a reference, if any |
| `IgnoreRules.ExporterIgnoreRulesExactly` | bitbucket_hg_exporter/__main__.py:498-516 | the table skips exactly the references outside the repository, those mentioning its patches, diffs, sources, file histories or downloads, its issue import/export and hook endpoints, and the five action endpoints |
| `IgnoreRules.OutsideRepositoryIgnored` | bitbucket_hg_exporter/__main__.py:505 | a reference that does not start with `repositories/<owner>/<repo>` is always skipped |
| `IgnoreRules.NegatedPrefixExample` | bitbucket_hg_exporter/__main__.py:818-820 | a negated prefix rule for repository A skips a reference into repository B |
| `Provenance.ReplaceAt` | bitbucket_hg_exporter/__main__.py:696-699 | putting a list at a path of the tree makes it the list found there, and keeps the top-level length |
| `Provenance.AppendAt` | bitbucket_hg_exporter/__main__.py:696-699 | `tree.append(node)` on the list reached by walking the cursor's parent path |
| `Provenance.ReplaceBySelf` | bitbucket_hg_exporter/__main__.py:696-699 | putting back the list already at a path changes nothing |
| `Provenance.ReplaceTwice` | bitbucket_hg_exporter/__main__.py:696-699 | a second replacement at the same path overrides the first |
| `Provenance.ReplaceInside` | bitbucket_hg_exporter/__main__.py:741-744 | editing a child list of a list just put in place is the same as putting the edited list there |
| `Provenance.ChildStep` | bitbucket_hg_exporter/__main__.py:741-744 | while a node's children are filled, appending at its child path appends to its children |
| `Provenance.ListAtDescend` | bitbucket_hg_exporter/__main__.py:697-698 | walking a valid path visits an existing list at every prefix, each index in range |
| `Provenance.ListAtSnoc` | bitbucket_hg_exporter/__main__.py:697-698 | one more index leads to that node's `children` |
| `Provenance.ReplaceLast` | bitbucket_hg_exporter/__main__.py:705 | appending a node and then replacing it is appending the replacement |
| `Provenance.FinishedUndoesNew` | bitbucket_hg_exporter/__main__.py:644-648 | `tree_finished_level` undoes `tree_new_level`, whose parent path is the old cursor |
| `Provenance.IncrementKeepsParent` | bitbucket_hg_exporter/__main__.py:650-651 | `tree_increment_level` keeps the length and the parent, and raises only the last index by one |
| `Responses.ResponseCache.constructor` | bitbucket_hg_exporter/__main__.py:896-897 | the class-level cache starts empty |
| `Responses.ResponseCache.Construct` | bitbucket_hg_exporter/__main__.py:899-923 | `DummyResponse(path)` has status 200 and the path; it is already processed exactly when the path was constructed before, and the cache then holds it |
| `Responses.ProcessedFlags` | bitbucket_hg_exporter/__main__.py:915-923 | one `already_processed` flag per construction |
| `Responses.ProcessedFlagsMeaning` | bitbucket_hg_exporter/__main__.py:915-923 | a construction's flag is set exactly when its path occurred earlier |
| `Responses.NewResponsesAreDistinctPaths` | bitbucket_hg_exporter/__main__.py:915-923 | the number of unprocessed responses equals the number of distinct paths |
| `Exporter.Disk.constructor` | bitbucket_hg_exporter/__main__.py:703 | the disk holds the given files |
| `Exporter.LocateShape` | bitbucket_hg_exporter/__main__.py:729-738 | a crawled URL's stored path ends in `.json`, and the URL queried for it starts with the API base URL |
| `Exporter.ForeignLinksAddNothing` | bitbucket_hg_exporter/__main__.py:802-836 | under the exporter's ignore table, links outside the repository add no children |
| `Exporter.AppendFillsSlot` | bitbucket_hg_exporter/__main__.py:741-744 | appending at the cursor's parent fills the slot the cursor addresses with the node |
| `Exporter.IncrementFreesSlot` | bitbucket_hg_exporter/__main__.py:650-651 | after `tree_increment_level` the cursor addresses the next free slot |
| `Exporter.NewLevelUnderSlot` | bitbucket_hg_exporter/__main__.py:644-645 | after `tree_new_level` the cursor's parent is the children list of the node just added |
| `Exporter.BitBucketExport.constructor` | bitbucket_hg_exporter/__main__.py:457-468 | the save paths are `bitbucket_data_raw` and `gh-pages/data` under the project path, the tree is empty, and the cursor is `(0,)` |
| `Exporter.BitBucketExport.TreeNewLevel` | bitbucket_hg_exporter/__main__.py:644-645 | a `0` is appended to the cursor, and the tree is unchanged |
| `Exporter.BitBucketExport.TreeFinishedLevel` | bitbucket_hg_exporter/__main__.py:647-648 | the cursor's last index is dropped, and the tree is unchanged |
| `Exporter.BitBucketExport.TreeIncrementLevel` | bitbucket_hg_exporter/__main__.py:650-651 | the cursor's last index goes up by one, and the tree is unchanged |
| `Exporter.BitBucketExport.AddNode` | bitbucket_hg_exporter/__main__.py:741-744 | the node is appended to the list found by walking `cursor[:-1]`, and the cursor then addresses it |
| `Exporter.BitBucketExport.MarkProcessed` | bitbucket_hg_exporter/__main__.py:758 | `tree[-1]['already_processed'] = True` turns the node just appended into the processed one |
| `Exporter.BitBucketExport.DownloadFile` | bitbucket_hg_exporter/__main__.py:685-718 | the file URL is recorded at the cursor with its sanitised path (the corrected computation, see Findings), processed exactly when the path is on disk; otherwise the download is stored there, and the disk is unchanged when the path already exists |
| `Exporter.BitBucketExport.DownloadChild` | bitbucket_hg_exporter/__main__.py:795-796 | `download_file` then `tree_increment_level`: one node for the URL is appended, and the cursor moves to the next slot |
| `Exporter.BitBucketExport.LocateUrl` | bitbucket_hg_exporter/__main__.py:723-738 | the stored path and the rewritten URL of the base URL |
| `Exporter.BitBucketExport.GetAndSaveJson` | bitbucket_hg_exporter/__main__.py:720-845 | one node is appended at the cursor with the URL, rewritten URL and stored path; it is already processed exactly when the file exists and was loaded before in this run, and then has no children; otherwise its children's URLs are the page's `next` link, its files and its kept API links; files are never removed, a stored file ends up recorded as visited, and a 200 JSON reply for a page not already processed ends up on disk |
| `Exporter.BitBucketExport.LoadReply` | bitbucket_hg_exporter/__main__.py:753-761 | a stored file loaded before in this run gives no reply; otherwise the reply is the stored file, or the API's answer when no file exists; a stored file is recorded as visited, and the disk is unchanged |
| `Exporter.BitBucketExport.HandleReply` | bitbucket_hg_exporter/__main__.py:768-845 | a 200 JSON reply is written to the stored path and gets the page's children; with no fuel left the disk is exactly the old disk plus that dump; any other status or a non-JSON body adds no children and writes nothing |
| `Exporter.BitBucketExport.CrawlChild` | bitbucket_hg_exporter/__main__.py:786-787 | `get_and_save_json` then `tree_increment_level`: one node for the URL is appended, and the cursor moves to the next slot |
| `Exporter.BitBucketExport.CrawlInto` | bitbucket_hg_exporter/__main__.py:835-836 | crawling one more child extends the filled node's children by one node for the URL |
| `Exporter.BitBucketExport.DownloadInto` | bitbucket_hg_exporter/__main__.py:795-796 | downloading one more file extends the filled node's children by one node for the URL |
| `Exporter.BitBucketExport.CrawlPage` | bitbucket_hg_exporter/__main__.py:782-838 | the page node gets its children, whose URLs are, in order, the `next` page, the embedded files and the kept API links; the cursor ends where it began |
| `Exporter.BitBucketExport.CrawlNext` | bitbucket_hg_exporter/__main__.py:785-787 | the `next` link, when present, is the first child |
| `Exporter.BitBucketExport.BeginPage` | bitbucket_hg_exporter/__main__.py:782 | `tree_new_level` under the node just added starts filling its children from none |
| `Exporter.BitBucketExport.EndPage` | bitbucket_hg_exporter/__main__.py:838 | `tree_finished_level` returns the cursor to the page's node, which now holds its children |
| `Exporter.BitBucketExport.DownloadAll` | bitbucket_hg_exporter/__main__.py:790-799 | the children added are the embedded file URLs, in order |
| `Exporter.BitBucketExport.CrawlLinks` | bitbucket_hg_exporter/__main__.py:802-836 | the children added are, for each link, its issue change list and the link unless ignored |
| `Exporter.BitBucketExport.CrawlLink` | bitbucket_hg_exporter/__main__.py:803-836 | an issue's own endpoint first adds its `/changes`, then the link is added unless the ignore chain skips it |
| `Exporter.BitBucketExport.MakeUrlsRelative` | bitbucket_hg_exporter/__main__.py:847-894 | the disk afterwards is every node's published copy added in depth-first order |
| `Exporter.BitBucketExport.WriteRelative` | bitbucket_hg_exporter/__main__.py:853-891 | one node's published copy is written, unless it exists or the stored file is missing: JSON with its children's URLs made local, anything else copied |
| `Exporter.BitBucketExport.RelativizeData` | bitbucket_hg_exporter/__main__.py:879-884 | each child's URL is replaced in its JSON string, escaped HTML and markdown image spellings |
| `Exporter.RelativizeChildUnchanged` | bitbucket_hg_exporter/__main__.py:879-884 | a text in which the child's URL is not spelled in any of the three forms is left alone |
| `Exporter.RelativizeTextUnchanged` | bitbucket_hg_exporter/__main__.py:879-884 | a text that spells none of the children's URLs is left alone by the whole loop |
| `Exporter.LocalUrlChars` | bitbucket_hg_exporter/__main__.py:880 | the local URL holds no backslash, and no `"`, `!` or `)` that the stored path lacks |
| `Exporter.ImageUnrepeatable` | bitbucket_hg_exporter/__main__.py:883 | replacing one markdown image link by another cannot build a new occurrence of the first |
| `Exporter.RelativizeChildLeavesNone` | bitbucket_hg_exporter/__main__.py:879-884 | none of the three spellings of the child's URL is left, given URLs and paths free of the delimiters and a text without the doubled-up spellings `"u"u"` and `\"u\"u\"` |
| `Exporter.RelativizeChildCanLeaveUrl` | bitbucket_hg_exporter/__main__.py:881 | without that proviso a spelling can survive: in `"u"u"` the first replacement uses up the shared quote |
| `Exporter.RelativizeTextCanRespell` | bitbucket_hg_exporter/__main__.py:879-884 | across children the result does not carry over: a later child stored at an earlier child's URL spells that URL again |
| `Exporter.FillingEnds` | bitbucket_hg_exporter/__main__.py:782-838 | filling the children of the node just appended is appending that node with its children |
| `Exporter.WriteOne` | bitbucket_hg_exporter/__main__.py:862-891 | a node adds exactly its published path, and only when that path is new and the stored file exists |
| `Exporter.RelativizeSnoc` | bitbucket_hg_exporter/__main__.py:853-894 | the walk handles a list node by node, each followed by its descendants |
| `Exporter.RelativizeWritesOnce` | bitbucket_hg_exporter/__main__.py:862-870 | relativization only adds files: no file on disk beforehand is changed |
| `IssueMigrate.FillGaps` | bitbucket_hg_exporter/issue_migrate.py:139-146 | the generator's output: each issue preceded by placeholders for the ids between the previous id (0 at first) and its own |
| `IssueMigrate.ExportedConcat` | bitbucket_hg_exporter/issue_migrate.py:139-146 | the exported issues of two streams joined are those of each, joined |
| `IssueMigrate.ExportedDummies` | bitbucket_hg_exporter/issue_migrate.py:143-144 | the placeholders hold no exported issue |
| `IssueMigrate.FillGapsKeepsIssues` | bitbucket_hg_exporter/issue_migrate.py:139-146 | every issue comes out unchanged and in order, whatever the ids; only placeholders are added |
| `IssueMigrate.FillGapsDense` | bitbucket_hg_exporter/issue_migrate.py:139-146 | for positive increasing ids the stream is numbered 1 to the last id, and each issue sits at the position of its id |
| `IssueMigrate.GapsArePlaceholders` | bitbucket_hg_exporter/issue_migrate.py:143-144 | a position no issue's id names holds the placeholder with that id |
| `IssueMigrate.FilledEntriesFromInput` | bitbucket_hg_exporter/issue_migrate.py:139-146 | every non-placeholder entry is one of the input issues |
| `IssueMigrate.FirstStamp` | bitbucket_hg_exporter/issue_migrate.py:276 | `re.search` finds the first index holding a timestamp, or there is none |
| `IssueMigrate.ConvertDateMeaning` | bitbucket_hg_exporter/issue_migrate.py:273-280 | the conversion raises exactly when no timestamp occurs; otherwise it is the first timestamp's date, `T`, time and `Z`, in GitHub's format |
| `IssueMigrate.ConvertDateIdempotent` | bitbucket_hg_exporter/issue_migrate.py:273-280 | a date already in GitHub's format converts to itself |
| `IssueMigrate.FormatUserAnonymous` | bitbucket_hg_exporter/issue_migrate.py:289-290 | the text is `Anonymous` exactly when there is no user |
| `IssueMigrate.FormatUserLinks` | bitbucket_hg_exporter/issue_migrate.py:291-302 | a user's text starts with the display name and the Bitbucket link (to `links.html.href` when given), and ends with the GitHub link exactly when the nickname is mapped |
| `IssueMigrate.TemplatesStart` | bitbucket_hg_exporter/issue_migrate.py:405-410 | each change template starts with its own words |
| `IssueMigrate.FormatChangeCases` | bitbucket_hg_exporter/issue_migrate.py:388-412 | `None` exactly for a non-description change with neither old nor new text; otherwise the description note or the template chosen by which texts are set |
| `IssueMigrate.BulletIffMentioned` | bitbucket_hg_exporter/issue_migrate.py:344-349 | a change gets a bullet exactly when it is described |
| `IssueMigrate.ChangeStringEmpty` | bitbucket_hg_exporter/issue_migrate.py:344-351 | a comment's change string is empty exactly when none of its changes is described |
| `IssueMigrate.ChangeLinesEmpty` | bitbucket_hg_exporter/issue_migrate.py:344-349 | the joined bullets are empty exactly when none of the changes is described |
| `IssueMigrate.LabelsShape` | bitbucket_hg_exporter/issue_migrate.py:213-223 | the first label is the priority, then one comma-free label of at most 50 characters for each of component, kind and version that is set, in that order |
| `IssueMigrate.LabelsOfClean` | bitbucket_hg_exporter/issue_migrate.py:223 | labels hold no comma and have at most 50 characters |
| `IssueMigrate.LabelOfMeaning` | bitbucket_hg_exporter/issue_migrate.py:223 | a label is a prefix of the comma-free name: all of it when that is short enough, otherwise its first 50 characters |
| `IssueMigrate.LatestIsGreatest` | bitbucket_hg_exporter/issue_migrate.py:251 | `sorted(dates)[-1]` is one of the dates, and no date exceeds it |
| `IssueMigrate.ClosingDatesMeaning` | bitbucket_hg_exporter/issue_migrate.py:241-249 | the closing dates convert exactly when every closing change's date does; they are then exactly the converted dates of the changes from an open-like to a closed state |
| `IssueMigrate.ClosedAtMeaning` | bitbucket_hg_exporter/issue_migrate.py:240-253 | `closed_at` is the raw `updated_on` when no change closed the issue, and otherwise the latest converted date of a closing change |
| `IssueMigrate.GithubMilestones.constructor` | bitbucket_hg_exporter/issue_migrate.py:491-513 | the title-to-number map starts as the milestones loaded from the repository |
| `IssueMigrate.GithubMilestones.Ensure` | bitbucket_hg_exporter/issue_migrate.py:515-520 | a known title gives its number without calling `create`; an unknown title calls `create` once and caches its number, and a failing `create` raises and caches nothing |
| `IssueMigrate.ConvertedFieldsMeaning` | bitbucket_hg_exporter/issue_migrate.py:213-253 | an issue converts exactly when its dates (and, if closed, its closing dates) convert; it is closed exactly when its state is not open, new or on hold, and only then has a closing date |
| `IssueMigrate.ConvertIssue` | bitbucket_hg_exporter/issue_migrate.py:200-261 | a placeholder becomes the fixed deleted issue; an issue whose dates fail gives that error; otherwise it gets its converted fields, and when it names a milestone, the number from `ensure`: a known title's cached number, a new title's created number, or `create`'s error |
| `Hg2Git.MatchNodes` | bitbucket_hg_exporter/hg2git.py:110-112 | matching the nodes of one key keeps every key of `hg_to_git` |
| `Hg2Git.MatchGit` | bitbucket_hg_exporter/hg2git.py:104-112 | the git pass keeps every key of `hg_to_git` |
| `Hg2Git.InsertSorted` | bitbucket_hg_exporter/hg2git.py:114 | inserting into the sorted list adds exactly the node |
| `Hg2Git.InsertSortedKeepsOrder` | bitbucket_hg_exporter/hg2git.py:114 | insertion keeps the list strictly sorted |
| `Hg2Git.SortNodesSpec` | bitbucket_hg_exporter/hg2git.py:114 | `sorted(hg_to_git)` is strictly increasing and holds exactly the hg nodes |
| `Hg2Git.BbToGh.FindHgNode` | bitbucket_hg_exporter/hg2git.py:116-123 | a found node is in the sorted list and starts with the query |
| `Hg2Git.BisectLeft` | bitbucket_hg_exporter/hg2git.py:117 | `bisect_left` gives the first index whose element is not less than the query |
| `Hg2Git.BisectLeftSplits` | bitbucket_hg_exporter/hg2git.py:117 | on a sorted list no element from that index on is less than the query |
| `Hg2Git.FindHgNodeComplete` | bitbucket_hg_exporter/hg2git.py:116-123 | when some node starts with the query, the lookup finds one, the least such |
| `Hg2Git.FindHgNodeNone` | bitbucket_hg_exporter/hg2git.py:116-123 | the lookup finds nothing exactly when no node starts with the query |
| `Hg2Git.BbToGh.HgnodeToGithash` | bitbucket_hg_exporter/hg2git.py:125-145 | corrected lookup: `tip` gives nothing, and any hash it gives is the git commit of a known node |
| `Hg2Git.HgnodeToGithashNone` | bitbucket_hg_exporter/hg2git.py:126-143 | `tip` gives nothing, and so does a node with no git commit; a resolved node gives its commit |
| `Hg2Git.HgnodeToGithashAgrees` | bitbucket_hg_exporter/hg2git.py:125-145 | wherever the code as written returns, the corrected lookup returns the same |
| `Hg2Git.HgnodeToGithashRaises` | bitbucket_hg_exporter/hg2git.py:128-136 | the code as written raises `KeyError` exactly for an unknown non-numeric node or an unknown revision number |
| `Hg2Git.UnknownNodeRaises` | bitbucket_hg_exporter/hg2git.py:128-136 | with only `def0` known, the query `abc` makes the code as written raise while the corrected lookup gives nothing |
| `Hg2Git.NewBbToGh` | bitbucket_hg_exporter/hg2git.py:84-114 | the URLs lose trailing slashes; `hg_to_git`, `hg_dates`, `hg_revnum_to_hg_node` and `sorted_nodes` are what the two loops and the sort compute; `sorted_nodes` is the sorted key set; revision numbers are taken as integers (see Left out) |
| `Hg2Git.BuiltIsValid` | bitbucket_hg_exporter/hg2git.py:101-114 | after `__init__`, `sorted_nodes` is exactly the strictly sorted key set of `hg_to_git` |
| `Hg2Git.ReadHgLogs` | bitbucket_hg_exporter/hg2git.py:92-102 | the loop over the hg log builds `hg_to_git`, `hg_dates`, `hg_revnum_to_hg_node` and `key_to_hg` |
| `Hg2Git.ReadGitLogs` | bitbucket_hg_exporter/hg2git.py:104-112 | the loop over the git log gives every node of a matching key the git commit, a later entry overriding an earlier one |
| `Hg2Git.MatchAll` | bitbucket_hg_exporter/hg2git.py:110-112 | the inner loop gives each node of the key the git commit |
| `Hg2Git.UnmatchedKeys` | bitbucket_hg_exporter/hg2git.py:101 | after the first loop the keys are exactly the hg nodes, all mapped to `None` |
| `Hg2Git.MatchGitKeys` | bitbucket_hg_exporter/hg2git.py:104-112 | the git pass never adds a key |
| `Hg2Git.KeyToHgMeaning` | bitbucket_hg_exporter/hg2git.py:96-97 | a node is listed under a key exactly when some hg entry has that node and key |
| `Hg2Git.MatchNodesValue` | bitbucket_hg_exporter/hg2git.py:110-112 | a listed node gets the git commit, and any other node keeps its value |
| `Hg2Git.MatchGitValue` | bitbucket_hg_exporter/hg2git.py:104-112 | a node's value after the git pass is the last git entry whose key lists it, or unchanged |
| `Hg2Git.HgToGitMeaning` | bitbucket_hg_exporter/hg2git.py:84-112 | after `__init__` every hg node maps to the last git commit sharing one of its (date, description) keys, or to `None` when none does |
| `Hg2Git.KeyToHgNodes` | bitbucket_hg_exporter/hg2git.py:93-101 | every node in `key_to_hg` is one of the hg nodes |
| `Hg2Git.LastMatchFinds` | bitbucket_hg_exporter/hg2git.py:104-112 | a git entry with the same key as an hg entry matches that entry's node |
| `LinkRewrite.NormalizeBbUrlNoHttp` | bitbucket_hg_exporter/hg2git.py:176-182 | no `http://www.bitbucket.org/` and no `http://bitbucket.org/` survives, provided the repository URL cannot rebuild one |
| `LinkRewrite.NormalizeBbUrlUnchanged` | bitbucket_hg_exporter/hg2git.py:176-182 | text without such links and without the repository URL is left alone |
| `LinkRewrite.HttpUnrepeatable` | bitbucket_hg_exporter/hg2git.py:178 | replacing `http://bitbucket.org/` by its https form cannot create a new occurrence |
| `LinkRewrite.MarkerAt` | bitbucket_hg_exporter/hg2git.py:165 | a match of `<<(cset\|changeset) ([^>]+)>>` ends after its start |
| `LinkRewrite.NodeAt` | bitbucket_hg_exporter/hg2git.py:165 | the node part of a marker match ends after its start |
| `LinkRewrite.MarkerAtSound` | bitbucket_hg_exporter/hg2git.py:165 | a match is a well-formed marker whose text occurs at the match position |
| `LinkRewrite.MarkerAtComplete` | bitbucket_hg_exporter/hg2git.py:165 | wherever a well-formed marker's text starts, the scanner's match there is that marker, ending right after it |
| `LinkRewrite.MarkersSound` | bitbucket_hg_exporter/hg2git.py:165 | every match is a `cset` or `changeset` marker with a non-empty node without `>`, whose text occurs in the content |
| `LinkRewrite.MarkersAbsent` | bitbucket_hg_exporter/hg2git.py:165 | text without `<<` has no marker |
| `LinkRewrite.CsetTargetAfterColon` | bitbucket_hg_exporter/hg2git.py:167-168 | a `revnum:node` marker is looked up by the node after the colon |
| `LinkRewrite.ConvertCsetMarker` | bitbucket_hg_exporter/hg2git.py:157-174 | each found marker's text is replaced everywhere, in order, by `\<\<cset H\>\>` with the node's git hash from the corrected lookup (see Findings) |
| `LinkRewrite.SingleMarker` | bitbucket_hg_exporter/hg2git.py:157-174 | a marker on its own is found and becomes the escaped marker of its git hash |
| `LinkRewrite.CsetLinkAt` | bitbucket_hg_exporter/hg2git.py:190 | a match of `<bb_url>/commits/([0-9a-f]+)(/?)` ends after its start |
| `LinkRewrite.CsetLinkFrom` | bitbucket_hg_exporter/hg2git.py:190 | the hex node and optional slash end after their start |
| `LinkRewrite.CsetLinkAtSound` | bitbucket_hg_exporter/hg2git.py:190 | a match is a hex node with an optional slash whose link occurs at the match position |
| `LinkRewrite.CsetLinkAtComplete` | bitbucket_hg_exporter/hg2git.py:190 | wherever a commit link starts whose hex node cannot be extended, and which takes the following slash if there is one, the scanner's match there is that link |
| `LinkRewrite.CsetLinksSound` | bitbucket_hg_exporter/hg2git.py:190 | every match is a non-empty lower-case hex node, with or without a slash, whose link occurs in the content |
| `LinkRewrite.CsetLinksAbsent` | bitbucket_hg_exporter/hg2git.py:190 | text without the commits URL has no match |
| `LinkRewrite.ConvertBbCsetLink` | bitbucket_hg_exporter/hg2git.py:184-197 | each found link is replaced everywhere, in order, by its git hash from the corrected lookup (see Findings) between spaces |
| `LinkRewrite.SingleCsetLink` | bitbucket_hg_exporter/hg2git.py:184-197 | a commit link ending in a slash, on its own, becomes its git hash between spaces |
| `LinkRewrite.IssueLinkAt` | bitbucket_hg_exporter/hg2git.py:238 | a match of `<bb_url>/issue/(\d+)(/[\w\d.,_-]*)?` ends after its start |
| `LinkRewrite.IssueLinkFrom` | bitbucket_hg_exporter/hg2git.py:238 | the number and optional slug end after their start |
| `LinkRewrite.SlugEnd` | bitbucket_hg_exporter/hg2git.py:238 | the optional slug ends within the text |
| `LinkRewrite.IssueLinkAtSound` | bitbucket_hg_exporter/hg2git.py:238 | a match is a number with an optional slug whose link occurs at the match position |
| `LinkRewrite.IssueLinkAtComplete` | bitbucket_hg_exporter/hg2git.py:238 | wherever an issue link starts that cannot be extended (a bare number followed by neither a digit nor `/`, or a slug followed by no slug character), the scanner's match there is that link |
| `LinkRewrite.IssueLinksSound` | bitbucket_hg_exporter/hg2git.py:238 | every match is a digit string, with or without a `/`-led slug, whose link occurs in the content |
| `LinkRewrite.IssueLinksAbsent` | bitbucket_hg_exporter/hg2git.py:238 | text without the issue URL has no match |
| `LinkRewrite.ConvertBbIssueLink` | bitbucket_hg_exporter/hg2git.py:232-244 | as written: each found link's text is replaced everywhere, in order, by `#N` |
| `LinkRewrite.SubstituteIssueLinks` | bitbucket_hg_exporter/hg2git.py:238-242 | corrected converter: each link is rewritten where it was found to `#N`, which is shorter than the link, so the text never grows |
| `LinkRewrite.IssueLinksUnchanged` | bitbucket_hg_exporter/hg2git.py:232-244 | text without the issue URL is left alone by both the as-written and the corrected converter |
| `LinkRewrite.IssueLinkFromSlug` | bitbucket_hg_exporter/hg2git.py:238 | a number followed by a slug is one match with that slug |
| `LinkRewrite.IssueLinkFromBare` | bitbucket_hg_exporter/hg2git.py:238 | a number followed by neither a digit nor `/` is one match without a slug |
| `LinkRewrite.SingleIssueLink` | bitbucket_hg_exporter/hg2git.py:232-244 | an issue link with a slug, on its own, becomes `#N` in both the as-written and the corrected converter |
| `LinkRewrite.CollidingLinksFound` | bitbucket_hg_exporter/hg2git.py:238-242 | the scan finds `.../issue/6` and `.../issue/63/t`, and substituting in place gives `#6 #63` |
| `LinkRewrite.CollidingReplaced` | bitbucket_hg_exporter/hg2git.py:242 | replacing `.../issue/6` everywhere also rewrites the front of `.../issue/63/t`, giving `#6 #63/t` |
| `LinkRewrite.IssueLinkPrefixCollision` | bitbucket_hg_exporter/hg2git.py:239-242 | for any repository URL without spaces, the code as written turns the two links into `#6 #63/t`, and in-place substitution gives `#6 #63` |
| `LinkRewrite.ReplaceTwoIssueLinks` | bitbucket_hg_exporter/hg2git.py:239-242 | the loop over two matches is two replacements, in order |
| `LinkRewrite.PrAt` | bitbucket_hg_exporter/hg2git.py:204 | a match of `\b(pull request #(\d+))\b` ends after its start |
| `LinkRewrite.PrNumbersSound` | bitbucket_hg_exporter/hg2git.py:204 | every match is a digit string whose `pull request #N` occurs in the content |
| `LinkRewrite.PrAtComplete` | bitbucket_hg_exporter/hg2git.py:204 | wherever `pull request #N` starts and ends at a word boundary, the scanner's match there is `N` |
| `LinkRewrite.PrNumbersAbsent` | bitbucket_hg_exporter/hg2git.py:204 | text without `pull request #` has no match |
| `LinkRewrite.ConvertBbPrMarker` | bitbucket_hg_exporter/hg2git.py:199-209 | each found marker is replaced everywhere, in order, by `<bb_url>/pull-request/N` |
| `LinkRewrite.SinglePrMarker` | bitbucket_hg_exporter/hg2git.py:199-209 | `pull request #N` on its own becomes the pull request's URL |
| `LinkRewrite.ConvertAll` | bitbucket_hg_exporter/hg2git.py:147-155 | the seven converters in the source's order, with the issue links substituted in place and hashes from the corrected lookup (see Findings) |
| `LinkRewrite.ConvertAllUnchanged` | bitbucket_hg_exporter/hg2git.py:147-155 | text with no http link, repository URL, `<<` or pull request marker comes through unchanged when the source and user converters leave it alone |
| `Memo.KwTexts` | bitbucket_hg_exporter/hg2git.py:39 | one `name=value` text per keyword argument, in order |
| `Memo.PositionalKey` | bitbucket_hg_exporter/hg2git.py:37-40 | a call with positional arguments only is keyed by their texts joined by `-`, and a single argument by its own text |
| `Memo.PositionalKeysDistinct` | bitbucket_hg_exporter/hg2git.py:37-40 | calls with equally many positional arguments free of `-` get equal keys only when the arguments are equal |
| `Memo.KeysCollide` | bitbucket_hg_exporter/hg2git.py:37-40 | different calls can share a key: `a-b` against `a`, `b`, and a positional `x=1` against the keyword `x=1` |
| `Memo.Memoized.constructor` | bitbucket_hg_exporter/hg2git.py:34-35 | the cache starts empty |
| `Memo.Memoized.Call` | bitbucket_hg_exporter/hg2git.py:43-49 | a cached key returns the cached result and changes nothing; otherwise the function runs once and its result is cached under the key |
| `Memo.CachedResultsComeFromFunc` | bitbucket_hg_exporter/hg2git.py:43-49 | every cached result is the function's result for some call with that key, and the function ran once per cached key |

## Left out

- `MigrationProject` is left out: the interactive configuration, credential storage, and the project's settings file.
- `backup_api` is left out: it loops over the repositories and builds the download patterns and rule tables. `Exporter.World.scan` is given the file-download patterns; the ignore table is `IgnoreRules.ExporterIgnoreRules`.
- Not modelled:
  - `bb_query_api` and `bbapi_json`: HTTP requests;
  - `requests.get` streaming in `download_file`;
  - `os.makedirs`;
  - `print`.
  
  The API answer and a download's body are parameters of `World`.
- `full_url_to_query` is a parameter of `World`, because URL parsing is outside this model. So is the JSON parser, together with the regular expressions it is paired with; their engine is not part of this model.
- Exceptions raised while downloading a file are not modelled. The source re-raises them.
- `Exporter.BitBucketExport.GetAndSaveJson`: the recursion carries a `fuel` bound. A page reached with no fuel left adds no children. Termination of the real crawl depends on the API graph being finite, and the model does not capture that.
- `Exporter.BitBucketExport.GetAndSaveJson`: the rewritten URL is compared with the base URL only to decide what to print, so that comparison is left out.
- `Responses.ResponseCache.Construct`: `DummyResponse` objects are values in the cache. Later mutations of a previously returned object through an alias are not modelled; the cache holds the latest flag.
- `import_issues_to_github`, `push_github_issue` and `verify_github_issue_import_finished` are not modelled: they are GitHub network calls.
- `get_issues`, `get_issue_comments`, `get_issue_changes`, `get_attachment_names` and `__get_items_from_file` are not modelled: they read files.
- `format_issue_body`, `apply_conversion` and `convert_comment` are not modelled: they are templates, file-existence tests and URL quoting.
- `IssueMigrate.GithubMilestones.constructor`: `load` (paged HTTP) is left out. The constructor takes the loaded map.
- `IssueMigrate.GithubMilestones.Ensure`: `create` is a parameter of `Ensure` that may fail.
- `IssueMigrate.ConvertIssue` leaves out the issue body and the assignee branch, which only executes `pass`.
- `get_bb_username`, `convert_bb_user_link` and `convert_bb_src_link` are not modelled: they depend on HTTP and `urlparse`. They are function parameters of `LinkRewrite.ConvertAll`.
- `get_git_log` and `get_hg_log` are not modelled: they call subprocesses. `Hg2Git.NewBbToGh` takes log entries of the same shape, except for the revision number (next line).
- `Hg2Git.NewBbToGh` takes revision numbers as integers, although `get_hg_log` gives them as text (bitbucket_hg_exporter/hg2git.py:327). Fed by `get_hg_log`, `hg_revnum_to_hg_node` is keyed by text, so the `int(hg_node)` lookup at bitbucket_hg_exporter/hg2git.py:131 misses for every revision number and raises `KeyError`. `Hg2Git.BbToGh.HgnodeToGithashAsWritten` and `Hg2Git.HgnodeToGithashRaises` describe the lookup for callers whose logs carry integer revision numbers, where a known revision number resolves.
- `dateutil.parser.parse` is not modelled. Log dates arrive already parsed, as integers.
- The timestamps in issue dates are compared as text, as `sorted` does.
- Regular expressions:
  - `\d` and `\w` are the ASCII classes;
  - the repository URL inside a pattern is taken literally, although the source puts it into the pattern unescaped;
  - `\b` is the ASCII word boundary.
- `Locations.PercentDecode` decodes each `%XX` to the character with that code, octet by octet. `parse.unquote` decodes runs of octets as UTF-8 and puts a replacement character for invalid ones. The two agree on ASCII text.
- `Locations.PercentRoundTrip` is stated for ASCII text only, because of how `Locations.PercentDecode` decodes.
- `Locations.QuotePlusRoundTrip` is stated for ASCII text only, for the same reason.
- `Locations.EncodedPairRoundTrip` is stated for ASCII keys and values only, for the same reason.
- `Locations.SanitisePath` computes the corrected path, which drops `%2f` as well as `%2F`. The code as written is `Locations.SanitisedAsWritten`, and the two are compared in Findings.
- `Exporter.BitBucketExport.DownloadFile` stores the file under the corrected path of `Locations.SanitisePath`, not the path the code as written computes.
- `LinkRewrite.ConvertCsetMarker` uses the corrected `hgnode_to_githash`. For an unknown node it writes `None` into the text; the code as written raises `KeyError` and aborts the conversion. `Hg2Git.HgnodeToGithashAgrees` shows the two lookups agree wherever the code as written returns.
- `LinkRewrite.ConvertBbCsetLink` uses the corrected `hgnode_to_githash` in the same way.
- `LinkRewrite.ConvertAll` runs the two converters above, so it too gives `None` where the code as written raises `KeyError`. It also rewrites issue links with `LinkRewrite.SubstituteIssueLinks`, each link where it was found, instead of `convert_bb_issue_link`'s replace-everywhere (`LinkRewrite.ConvertBbIssueLink`): `<bb>/issue/6 <bb>/issue/63/t` gives `#6 #63` here and `#6 #63/t` in the code as written (see Findings).
- `Exporter.IsIssueLink` takes the owner and repository names literally, although the source puts them into the pattern unescaped. It also does not let `$` match before a trailing newline.
- `Exporter.RelativizeChildLeavesNone` holds for one child and only under its proviso (see `Exporter.RelativizeChildCanLeaveUrl`). It is not lifted to the whole loop, because a later child's local URL may spell an earlier child's URL again (`Exporter.RelativizeTextCanRespell`).
- `LinkRewrite.NormalizeBbUrlNoHttp` needs the repository's commits URL to be unable to rebuild an http link when `changeset/` becomes `commits/`.
- `Memo`: arguments enter the key as their `str()` texts, and keyword arguments keep the order in which they were passed.
- `setup.py` and the `gh-pages` template's JavaScript are not part of this model.

## Findings

| source | as written | input that shows it | evidently intended | confidence | as-written member | corrected member |
|---|---|---|---|---|---|---|
| bitbucket_hg_exporter/__main__.py:689 | only the upper-case `%2F` is removed before `unquote`, so a lower-case `%2f` decodes to a slash that becomes a directory separator | download URL `a%2fb` gives `a/b` | encoded slashes of either case are dropped, as the comment above the code says (`ab`) | not executed | `Locations.LowerCaseSlashSurvives` | `Locations.SanitisePath` |
| bitbucket_hg_exporter/hg2git.py:128-136 | an unknown node that is not a number reaches `self.hg_to_git[None]`, and an unknown revision number indexes `hg_revnum_to_hg_node` with a missing key; both raise `KeyError` | a `BbToGh` knowing only node `def0`, queried with `abc` | an unknown node gives `None`, as an unmatched node does | not executed | `Hg2Git.UnknownNodeRaises` | `Hg2Git.BbToGh.HgnodeToGithash` |
| bitbucket_hg_exporter/hg2git.py:239-242 | each match's text is replaced everywhere, so a shorter link that is a prefix of a longer one rewrites that longer one's front first | `<bb_url>/issue/6 <bb_url>/issue/63/t` gives `#6 #63/t` | every link becomes its own `#N`, as `re.sub` would make it: `#6 #63` | not executed | `LinkRewrite.IssueLinkPrefixCollision` | `LinkRewrite.SubstituteIssueLinks` |
