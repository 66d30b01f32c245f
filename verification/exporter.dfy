/**
 * `BitBucketExport`: the depth-first crawl of one repository's API data.
 * Each fetched page and each downloaded file gets a node in the provenance
 * tree at the cursor; a JSON page's `next` page, embedded files and API links
 * become its children; and `make_urls_relative` later copies the stored files
 * to the publishing directory with the children's URLs made local.
 */
module Exporter {
  import opened Wrappers
  import opened Strings
  import opened RewriteRules
  import opened IgnoreRules
  import opened Locations
  import opened Provenance
  import opened Responses

  // ---------------------------------------------------------------------------
  // The outside world

  /** The status code and body the API returns. */
  datatype Reply = Reply(status: int, text: string)

  /**
   * What the crawler reads from a body: whether it parses as JSON, the JSON
   * written back out, the `next` link, the file URLs the download patterns
   * find (pattern by pattern, in order) and the API links the link pattern
   * finds (with the API base URL already cut off).
   */
  datatype Scan = Scan(isJson: bool, dumped: string, next: Option<string>, downloads: seq<string>, links: seq<string>)

  /**
   * The calls the crawler makes into code outside the model: the
   * authenticated API query, the body of a plain download, the JSON parser
   * with the link patterns, and `full_url_to_query` (which yields the URL's
   * scheme, host and path together with its parsed query).
   */
  datatype World = World(
    query: string -> Reply,
    download: string -> string,
    scan: string -> Scan,
    fullUrlToQuery: string -> (string, Params))

  /** The files on disk, by path. */
  class Disk {
    var files: map<string, string>

    constructor (files: map<string, string>)
      ensures this.files == files
    {
      this.files := files;
    }
  }

  // ---------------------------------------------------------------------------
  // What the crawler computes for one URL

  /** The stored JSON path and the rewritten URL of a crawled URL. */
  datatype Target = Target(endpointPath: string, rewrittenUrl: string)

  function Locate(baseUrl: string, savePath: string, rewriteRules: seq<Rule>, world: World): Target {
    var (full, params) := world.fullUrlToQuery(baseUrl);
    var endpoint := RelativeEndpoint(full);
    var ps := ApplyRules(params, endpoint, rewriteRules);
    Target(EndpointPath(savePath, endpoint, ps), RewrittenUrl(endpoint, ps))
  }

  /** The stored path of a crawled URL is a `.json` file and the URL queried for it is an API URL. */
  lemma LocateShape(baseUrl: string, savePath: string, rewriteRules: seq<Rule>, world: World)
    ensures EndsWith(Locate(baseUrl, savePath, rewriteRules, world).endpointPath, ".json")
    ensures StartsWith(Locate(baseUrl, savePath, rewriteRules, world).rewrittenUrl, ApiUrl)
  {
    var (full, params) := world.fullUrlToQuery(baseUrl);
    var endpoint := RelativeEndpoint(full);
    var ps := ApplyRules(params, endpoint, rewriteRules);
    SuffixOfSuffix(EndpointPath(savePath, endpoint, ps), UrlEncode(ps), ".json");
    PrefixOfPrefix(RewrittenUrl(endpoint, ps), ApiUrl, endpoint);
  }

  /** The body the crawler works on: the stored file if there is one, otherwise the API's answer. */
  function ReplyFor(t: Target, files: map<string, string>, world: World): Reply {
    if t.endpointPath in files then Reply(200, files[t.endpointPath]) else world.query(t.rewrittenUrl)
  }

  /** An issue's own endpoint, `repositories/<owner>/<repo>/issues/<digits>` and nothing after. */
  predicate IsIssueLink(owner: string, repo: string, link: string) {
    var prefix := "repositories/" + owner + "/" + repo + "/issues/";
    StartsWith(link, prefix) && IsDigits(link[|prefix|..])
  }

  /** The children one API link yields: the issue's change list first, then the link unless ignored. */
  function LinkChildren(owner: string, repo: string, ignoreRules: seq<IgnoreRule>, link: string): seq<string> {
    (if IsIssueLink(owner, repo, link) then [BbEndpointToFullUrl(link + "/changes")] else [])
    + (if Ignored(link, ignoreRules) then [] else [BbEndpointToFullUrl(link)])
  }

  function LinksChildren(owner: string, repo: string, ignoreRules: seq<IgnoreRule>, links: seq<string>): seq<string> {
    if links == [] then []
    else
      LinksChildren(owner, repo, ignoreRules, links[..|links| - 1]) + LinkChildren(owner, repo, ignoreRules, links[|links| - 1])
  }

  lemma LinksChildrenSnoc(owner: string, repo: string, ignoreRules: seq<IgnoreRule>, links: seq<string>, i: nat)
    requires i < |links|
    ensures LinksChildren(owner, repo, ignoreRules, links[..i + 1])
         == LinksChildren(owner, repo, ignoreRules, links[..i]) + LinkChildren(owner, repo, ignoreRules, links[i])
  {
    assert links[..i + 1][..i] == links[..i];
  }

  /** The URLs of a JSON page's children, in the order the crawler visits them. */
  function PageChildren(owner: string, repo: string, ignoreRules: seq<IgnoreRule>, scan: Scan): seq<string> {
    (if scan.next.Some? then [scan.next.value] else [])
    + scan.downloads
    + LinksChildren(owner, repo, ignoreRules, scan.links)
  }

  /** A page whose links all fall outside the repository adds no API children. */
  lemma {:induction false} ForeignLinksAddNothing(owner: string, repo: string, links: seq<string>)
    requires forall i :: 0 <= i < |links| ==> !StartsWith(links[i], "repositories/" + owner + "/" + repo)
    ensures LinksChildren(owner, repo, ExporterIgnoreRules(owner, repo), links) == []
  {
    if links != [] {
      var last := links[|links| - 1];
      ForeignLinksAddNothing(owner, repo, links[..|links| - 1]);
      OutsideRepositoryIgnored(owner, repo, last);
      PrefixOfPrefix(last, "repositories/" + owner + "/" + repo, "/issues/");
      assert "repositories/" + owner + "/" + repo + "/issues/" == ("repositories/" + owner + "/" + repo) + "/issues/";
    }
  }

  // ---------------------------------------------------------------------------
  // The slot the cursor addresses

  /**
   * The cursor addresses a slot of an existing child list: `filled` is 0 when
   * the slot is still free (the next node goes there) and 1 once the node for
   * it has been appended.
   */
  ghost predicate SlotAt(tree: seq<Node>, cursor: seq<nat>, filled: nat) {
    && cursor != []
    && ListAt(tree, Parent(cursor)).Some?
    && |ListAt(tree, Parent(cursor)).value| == cursor[|cursor| - 1] + filled
  }

  lemma AppendFillsSlot(tree: seq<Node>, cursor: seq<nat>, n: Node)
    requires SlotAt(tree, cursor, 0)
    ensures SlotAt(AppendAt(tree, Parent(cursor), n), cursor, 1)
    ensures ListAt(AppendAt(tree, Parent(cursor), n), Parent(cursor)).value[cursor[|cursor| - 1]] == n
  {
  }

  lemma IncrementFreesSlot(tree: seq<Node>, cursor: seq<nat>)
    requires SlotAt(tree, cursor, 1)
    ensures SlotAt(tree, IncrementLevel(cursor), 0)
  {
    IncrementKeepsParent(cursor);
  }

  /** A new level under a filled slot addresses the first child of the node in it. */
  lemma NewLevelUnderSlot(tree: seq<Node>, cursor: seq<nat>)
    requires SlotAt(tree, cursor, 1)
    ensures ListAt(tree, Parent(NewLevel(cursor))) == Some(ListAt(tree, Parent(cursor)).value[cursor[|cursor| - 1]].children)
  {
    FinishedUndoesNew(cursor);
    assert cursor == Parent(cursor) + [cursor[|cursor| - 1]];
    ListAtSnoc(tree, Parent(cursor), cursor[|cursor| - 1]);
  }

  // ---------------------------------------------------------------------------
  // The exporter

  class BitBucketExport {
    const owner: string
    const repository: string
    const savePath: string
    const savePathRelative: string
    const disk: Disk
    const cache: ResponseCache
    var tree: seq<Node>
    var cursor: seq<nat>

    /** The cursor addresses the free slot at the end of an existing child list. */
    ghost predicate Valid()
      reads this
    {
      SlotAt(tree, cursor, 0)
    }

    /** Between adding a node and moving past it: the cursor addresses the node just added. */
    ghost predicate Pending()
      reads this
    {
      SlotAt(tree, cursor, 1)
    }

    /** `__init__`: the save directories under the project path, an empty tree, the cursor at `(0,)`. */
    constructor (owner: string, repository: string, projectPath: string, disk: Disk, cache: ResponseCache)
      ensures Valid() && tree == [] && cursor == [0]
      ensures this.owner == owner && this.repository == repository
      ensures savePath == JoinPath(projectPath, "bitbucket_data_raw")
      ensures savePathRelative == JoinPath(JoinPath(projectPath, "gh-pages"), "data")
      ensures this.disk == disk && this.cache == cache
    {
      this.owner := owner;
      this.repository := repository;
      savePath := JoinPath(projectPath, "bitbucket_data_raw");
      savePathRelative := JoinPath(JoinPath(projectPath, "gh-pages"), "data");
      this.disk := disk;
      this.cache := cache;
      tree := [];
      cursor := [];
      new;
      TreeNewLevel();
    }

    /** Files on disk are never removed, and a path loaded through `DummyResponse` stays loaded. */
    ghost predicate Grown(files: map<string, string>, visits: seq<string>)
      reads disk, cache
    {
      files.Keys <= disk.files.Keys && visits <= cache.visits
    }

    // -------------------------------------------------------------------------
    // The cursor

    method TreeNewLevel()
      modifies this
      ensures cursor == NewLevel(old(cursor)) && tree == old(tree)
    {
      cursor := cursor + [0];
    }

    method TreeFinishedLevel()
      modifies this
      ensures cursor == FinishedLevel(old(cursor)) && tree == old(tree)
    {
      if cursor != [] {
        cursor := cursor[..|cursor| - 1];
      }
    }

    /** The index of the last level goes up by one (an empty cursor has no last index). */
    method TreeIncrementLevel()
      requires cursor != []
      modifies this
      ensures cursor == IncrementLevel(old(cursor)) && tree == old(tree)
    {
      cursor := cursor[..|cursor| - 1] + [cursor[|cursor| - 1] + 1];
    }

    // -------------------------------------------------------------------------
    // Adding nodes

    /** Walk `cursor[:-1]` down the tree and append `node` to the list found there. */
    method AddNode(node: Node)
      requires Valid()
      modifies this
      ensures Pending() && cursor == old(cursor)
      ensures tree == AppendAt(old(tree), Parent(cursor), node)
    {
      var parent := cursor[..|cursor| - 1];
      assert ListAt(tree, parent).Some?;
      var list := tree;
      for k := 0 to |parent|
        invariant tree == old(tree) && cursor == old(cursor)
        invariant ListAt(tree, parent[..k]) == Some(list)
      {
        ListAtDescend(tree, parent, k);
        list := list[parent[k]].children;
      }
      assert parent[..|parent|] == parent;
      tree := ReplaceAt(tree, parent, list + [node]);
      AppendFillsSlot(old(tree), cursor, node);
    }

    /** `tree[-1]['already_processed'] = True` on the list the node `n` was just appended to. */
    method MarkProcessed(ghost before: seq<Node>, ghost n: Node)
      requires SlotAt(before, cursor, 0) && tree == AppendAt(before, Parent(cursor), n)
      modifies this
      ensures cursor == old(cursor) && tree == AppendAt(before, Parent(cursor), n.(alreadyProcessed := true))
    {
      var parent := Parent(cursor);
      var list := ListAt(tree, parent).value;
      tree := ReplaceAt(tree, parent, list[..|list| - 1] + [list[|list| - 1].(alreadyProcessed := true)]);
      assert list[..|list| - 1] == ListAt(before, parent).value;
      ReplaceLast(before, parent, n, n.(alreadyProcessed := true));
    }

    // -------------------------------------------------------------------------
    // download_file

    /**
     * Record a file URL in the tree with its local path, then store the file
     * unless that path is already on disk, in which case the node is marked
     * as already processed.
     */
    method DownloadFile(baseUrl: string, world: World)
      requires Valid()
      modifies this, disk
      ensures Pending() && cursor == old(cursor)
      ensures Grown(old(disk.files), old(cache.visits))
      ensures var path := JoinPath(savePath, Sanitised(baseUrl));
        && tree == AppendAt(old(tree), Parent(cursor), Node(baseUrl, baseUrl, path, path in old(disk.files), []))
        && disk.files == if path in old(disk.files) then old(disk.files) else old(disk.files)[path := world.download(baseUrl)]
    {
      var correctedUrlPath := SanitisePath(baseUrl);
      var path := JoinPath(savePath, correctedUrlPath);
      var node := Node(baseUrl, baseUrl, path, false, []);
      AddNode(node);
      if path in disk.files {
        MarkProcessed(old(tree), node);
        AppendFillsSlot(old(tree), cursor, node.(alreadyProcessed := true));
        return;
      }
      disk.files := disk.files[path := world.download(baseUrl)];
    }

    /** `download_file` followed by `tree_increment_level`. */
    method DownloadChild(url: string, world: World) returns (ghost child: Node)
      requires Valid()
      modifies this, disk
      ensures Valid() && cursor == IncrementLevel(old(cursor))
      ensures Grown(old(disk.files), old(cache.visits))
      ensures tree == AppendAt(old(tree), Parent(old(cursor)), child) && child.url == url
    {
      DownloadFile(url, world);
      child := Node(url, url, JoinPath(savePath, Sanitised(url)), JoinPath(savePath, Sanitised(url)) in old(disk.files), []);
      IncrementFreesSlot(tree, cursor);
      TreeIncrementLevel();
      IncrementKeepsParent(old(cursor));
    }

    // -------------------------------------------------------------------------
    // get_and_save_json

    /**
     * The stored path and the URL to query for `baseUrl`: its endpoint with
     * the API base URL and any query cut off, the parameters rewritten, the
     * encoded parameters and `.json` appended to the joined path, and `?`
     * with the encoded parameters appended to the URL when there are any.
     */
    method LocateUrl(baseUrl: string, rewriteRules: seq<Rule>, world: World) returns (endpointPath: string, rewrittenBaseUrl: string)
      ensures Target(endpointPath, rewrittenBaseUrl) == Locate(baseUrl, savePath, rewriteRules, world)
    {
      var (full, params) := world.fullUrlToQuery(baseUrl);
      var endpoint := RelativeEndpoint(full);
      var rewrittenEndpoint, rewrittenParams := RewriteUrl(endpoint, params, rewriteRules);
      endpointPath := EndpointPath(savePath, rewrittenEndpoint, rewrittenParams);
      rewrittenBaseUrl := RewrittenUrl(rewrittenEndpoint, rewrittenParams);
    }

    /**
     * Crawl one API URL: work out its stored path and rewritten URL, add its
     * node at the cursor, and take the body from the stored file (unless the
     * file was already visited in this run, which marks the node processed
     * and stops) or from the API, then handle the reply.
     */
    method GetAndSaveJson(baseUrl: string, ignoreRules: seq<IgnoreRule>, rewriteRules: seq<Rule>, world: World, fuel: nat)
      returns (ghost added: Node)
      requires Valid() && cache.Valid()
      modifies this, disk, cache
      ensures Pending() && cursor == old(cursor) && cache.Valid()
      ensures Grown(old(disk.files), old(cache.visits))
      ensures tree == AppendAt(old(tree), Parent(cursor), added)
      ensures var t := Locate(baseUrl, savePath, rewriteRules, world);
        && added.url == baseUrl && added.endpointPath == t.endpointPath && added.rewrittenUrl == t.rewrittenUrl
        && (added.alreadyProcessed <==> t.endpointPath in old(disk.files) && t.endpointPath in old(cache.visits))
      ensures added.alreadyProcessed ==> added.children == []
      ensures var t := Locate(baseUrl, savePath, rewriteRules, world);
        var reply := ReplyFor(t, old(disk.files), world);
        var scan := world.scan(reply.text);
        Urls(added.children) ==
          if !added.alreadyProcessed && reply.status == 200 && scan.isJson && fuel > 0
          then PageChildren(owner, repository, ignoreRules, scan) else []
      ensures added.endpointPath in old(disk.files) ==> added.endpointPath in cache.visits
      ensures var reply := ReplyFor(Target(added.endpointPath, added.rewrittenUrl), old(disk.files), world);
        !added.alreadyProcessed && reply.status == 200 && world.scan(reply.text).isJson ==> added.endpointPath in disk.files
      decreases fuel, 1
    {
      var endpointPath, rewrittenBaseUrl := LocateUrl(baseUrl, rewriteRules, world);
      var node := Node(baseUrl, rewrittenBaseUrl, endpointPath, false, []);
      AddNode(node);
      var reply := LoadReply(endpointPath, rewrittenBaseUrl, world);
      ghost var loaded := cache.visits;
      if reply.None? {
        MarkProcessed(old(tree), node);
        added := node.(alreadyProcessed := true);
        AppendFillsSlot(old(tree), cursor, added);
        return;
      }
      added := HandleReply(reply.value, endpointPath, ignoreRules, rewriteRules, world, fuel, old(tree), node);
      if endpointPath in old(disk.files) {
        PrefixKeeps(loaded, cache.visits, endpointPath);
      }
    }

    /**
     * The body to work on: a stored file is loaded through `DummyResponse`,
     * and `None` says it was already loaded once in this run; otherwise the
     * API is queried.
     */
    method LoadReply(endpointPath: string, rewrittenBaseUrl: string, world: World) returns (reply: Option<Reply>)
      requires cache.Valid()
      modifies cache
      ensures cache.Valid()
      ensures cache.visits == if endpointPath in disk.files then old(cache.visits) + [endpointPath] else old(cache.visits)
      ensures Grown(disk.files, old(cache.visits))
      ensures reply.None? <==> endpointPath in disk.files && endpointPath in old(cache.visits)
      ensures reply.Some? ==> reply.value == ReplyFor(Target(endpointPath, rewrittenBaseUrl), disk.files, world)
    {
      if endpointPath in disk.files {
        var response := cache.Construct(endpointPath);
        if response.alreadyProcessed {
          return None;
        }
        reply := Some(Reply(response.statusCode, disk.files[endpointPath]));
      } else {
        reply := Some(world.query(rewrittenBaseUrl));
      }
    }

    /**
     * The second half of `get_and_save_json`: a 200 reply whose body parses as
     * JSON is stored and, while `fuel` lasts, its children are crawled one
     * level down; a body that is not JSON and any other status (401, 404 or
     * anything else, which are only reported) add nothing more.
     */
    method HandleReply(reply: Reply, endpointPath: string, ignoreRules: seq<IgnoreRule>, rewriteRules: seq<Rule>,
                       world: World, fuel: nat, ghost before: seq<Node>, ghost node: Node)
      returns (ghost added: Node)
      requires SlotAt(before, cursor, 0) && tree == AppendAt(before, Parent(cursor), node) && node.children == []
      requires cache.Valid()
      modifies this, disk, cache
      ensures Pending() && cursor == old(cursor) && cache.Valid()
      ensures Grown(old(disk.files), old(cache.visits))
      ensures tree == AppendAt(before, Parent(cursor), added) && added == node.(children := added.children)
      ensures var scan := world.scan(reply.text);
        Urls(added.children) ==
          if reply.status == 200 && scan.isJson && fuel > 0 then PageChildren(owner, repository, ignoreRules, scan) else []
      ensures reply.status != 200 || !world.scan(reply.text).isJson ==> disk.files == old(disk.files)
      ensures reply.status == 200 && world.scan(reply.text).isJson ==> endpointPath in disk.files
      ensures reply.status == 200 && world.scan(reply.text).isJson && fuel == 0 ==>
        disk.files == old(disk.files)[endpointPath := world.scan(reply.text).dumped]
      decreases fuel, 0
    {
      added := node;
      AppendFillsSlot(before, cursor, node);
      if reply.status == 200 {
        var scan := world.scan(reply.text);
        if !scan.isJson {
          return;
        }
        disk.files := disk.files[endpointPath := scan.dumped];
        if fuel > 0 {
          ghost var kids := CrawlPage(scan, ignoreRules, rewriteRules, world, fuel - 1, before, node);
          added := node.(children := kids);
          AppendFillsSlot(before, cursor, added);
        }
      }
    }

    /** `get_and_save_json` followed by `tree_increment_level`. */
    method CrawlChild(url: string, ignoreRules: seq<IgnoreRule>, rewriteRules: seq<Rule>, world: World, fuel: nat)
      returns (ghost child: Node)
      requires Valid() && cache.Valid()
      modifies this, disk, cache
      ensures Valid() && cursor == IncrementLevel(old(cursor)) && cache.Valid()
      ensures Grown(old(disk.files), old(cache.visits))
      ensures tree == AppendAt(old(tree), Parent(old(cursor)), child) && child.url == url
      decreases fuel, 2
    {
      child := GetAndSaveJson(url, ignoreRules, rewriteRules, world, fuel);
      ghost var files, visits := disk.files, cache.visits;
      IncrementFreesSlot(tree, cursor);
      TreeIncrementLevel();
      assert disk.files == files && cache.visits == visits;
      IncrementKeepsParent(old(cursor));
    }

    /**
     * While the children of the `k`-th node of the list at `parent` are being
     * crawled: that node has `kids` so far and the cursor addresses the slot
     * after them.
     */
    ghost predicate Filling(before: seq<Node>, parent: seq<nat>, list: seq<Node>, k: nat, kids: seq<Node>)
      reads this
    {
      && ListAt(before, parent).Some? && k < |list|
      && tree == ReplaceAt(before, parent, list[k := list[k].(children := kids)])
      && cursor == parent + [k] + [|kids|]
    }

    /** Crawl one more child of the node being filled. */
    method CrawlInto(url: string, ignoreRules: seq<IgnoreRule>, rewriteRules: seq<Rule>, world: World, fuel: nat,
                     ghost before: seq<Node>, ghost parent: seq<nat>, ghost list: seq<Node>, ghost k: nat, ghost kids: seq<Node>)
      returns (ghost child: Node)
      requires Filling(before, parent, list, k, kids) && cache.Valid()
      modifies this, disk, cache
      ensures Filling(before, parent, list, k, kids + [child]) && child.url == url && cache.Valid()
      ensures Grown(old(disk.files), old(cache.visits))
      decreases fuel, 3
    {
      ChildStep(before, parent, list, k, kids, list[k]);
      assert Parent(cursor) == parent + [k];
      child := CrawlChild(url, ignoreRules, rewriteRules, world, fuel);
      ChildStep(before, parent, list, k, kids, child);
      assert cursor == parent + [k] + [|kids| + 1];
    }

    /** Download one more child of the node being filled. */
    method DownloadInto(url: string, world: World,
                        ghost before: seq<Node>, ghost parent: seq<nat>, ghost list: seq<Node>, ghost k: nat, ghost kids: seq<Node>)
      returns (ghost child: Node)
      requires Filling(before, parent, list, k, kids)
      modifies this, disk
      ensures Filling(before, parent, list, k, kids + [child]) && child.url == url
      ensures Grown(old(disk.files), old(cache.visits))
    {
      ChildStep(before, parent, list, k, kids, list[k]);
      assert Parent(cursor) == parent + [k];
      child := DownloadChild(url, world);
      ChildStep(before, parent, list, k, kids, child);
      assert cursor == parent + [k] + [|kids| + 1];
    }

    /**
     * The children of a stored JSON page, one level down: its `next` page,
     * the files it embeds, then for each API link the issue's change list (for
     * an issue's own endpoint) and the link itself unless the ignore chain
     * skips it. The page's node `n` was appended to `before` and has no
     * children yet.
     */
    method CrawlPage(scan: Scan, ignoreRules: seq<IgnoreRule>, rewriteRules: seq<Rule>, world: World, fuel: nat,
                     ghost before: seq<Node>, ghost n: Node)
      returns (ghost kids: seq<Node>)
      requires SlotAt(before, cursor, 0) && tree == AppendAt(before, Parent(cursor), n) && n.children == []
      requires cache.Valid()
      modifies this, disk, cache
      ensures cursor == old(cursor) && cache.Valid()
      ensures Grown(old(disk.files), old(cache.visits))
      ensures tree == AppendAt(before, Parent(cursor), n.(children := kids))
      ensures Urls(kids) == PageChildren(owner, repository, ignoreRules, scan)
      decreases fuel, 6
    {
      ghost var parent, list, k := BeginPage(before, n);
      ghost var nexts := CrawlNext(scan.next, ignoreRules, rewriteRules, world, fuel, before, parent, list, k);
      ghost var downloaded := DownloadAll(scan.downloads, world, before, parent, list, k, nexts);
      ghost var linked := CrawlLinks(scan.links, ignoreRules, rewriteRules, world, fuel, before, parent, list, k, nexts + downloaded);
      kids := nexts + downloaded + linked;
      UrlsConcat(nexts, downloaded);
      UrlsConcat(nexts + downloaded, linked);
      EndPage(before, n, parent, list, k, kids);
    }

    /** The page's `next` link, if it has one, is its first child. */
    method CrawlNext(next: Option<string>, ignoreRules: seq<IgnoreRule>, rewriteRules: seq<Rule>, world: World, fuel: nat,
                     ghost before: seq<Node>, ghost parent: seq<nat>, ghost list: seq<Node>, ghost k: nat)
      returns (ghost kids: seq<Node>)
      requires Filling(before, parent, list, k, []) && cache.Valid()
      modifies this, disk, cache
      ensures Filling(before, parent, list, k, kids) && cache.Valid()
      ensures Grown(old(disk.files), old(cache.visits))
      ensures Urls(kids) == if next.Some? then [next.value] else []
      decreases fuel, 4
    {
      kids := [];
      if next.Some? {
        var child := CrawlInto(next.value, ignoreRules, rewriteRules, world, fuel, before, parent, list, k, kids);
        UrlsAppend(kids, child);
        kids := kids + [child];
      }
    }

    /** `tree_new_level` under the node `n` just appended: its children are filled from none. */
    method BeginPage(ghost before: seq<Node>, ghost n: Node) returns (ghost parent: seq<nat>, ghost list: seq<Node>, ghost k: nat)
      requires SlotAt(before, cursor, 0) && tree == AppendAt(before, Parent(cursor), n) && n.children == []
      modifies this
      ensures Filling(before, parent, list, k, [])
      ensures parent == Parent(old(cursor)) && list == ListAt(before, parent).value + [n] && k == |list| - 1
      ensures old(cursor) == parent + [k]
    {
      parent := Parent(cursor);
      list := ListAt(before, parent).value + [n];
      k := |list| - 1;
      assert cursor == parent + [k];
      FillingEnds(before, parent, n, []);
      assert n.(children := []) == n;
      TreeNewLevel();
    }

    /** `tree_finished_level` after the children `kids` of the node `n`: the node holds them. */
    method EndPage(ghost before: seq<Node>, ghost n: Node, ghost parent: seq<nat>, ghost list: seq<Node>, ghost k: nat, ghost kids: seq<Node>)
      requires Filling(before, parent, list, k, kids)
      requires list == ListAt(before, parent).value + [n] && k == |list| - 1
      modifies this
      ensures cursor == parent + [k] && Parent(cursor) == parent
      ensures tree == AppendAt(before, parent, n.(children := kids))
    {
      TreeFinishedLevel();
      assert cursor == parent + [k];
      FillingEnds(before, parent, n, kids);
    }

    /** `download_file` and `tree_increment_level` for each file URL the page embeds. */
    method DownloadAll(downloads: seq<string>, world: World,
                       ghost before: seq<Node>, ghost parent: seq<nat>, ghost list: seq<Node>, ghost k: nat, ghost kids: seq<Node>)
      returns (ghost added: seq<Node>)
      requires Filling(before, parent, list, k, kids)
      modifies this, disk
      ensures Filling(before, parent, list, k, kids + added) && Urls(added) == downloads
      ensures Grown(old(disk.files), old(cache.visits))
    {
      added := [];
      ghost var all := kids;
      assert all == kids + added;
      for i := 0 to |downloads|
        invariant Filling(before, parent, list, k, all) && all == kids + added
        invariant Grown(old(disk.files), old(cache.visits))
        invariant Urls(added) == downloads[..i]
      {
        var child := DownloadInto(downloads[i], world, before, parent, list, k, all);
        UrlsAppend(added, child);
        ConcatAssoc(kids, added, [child]);
        added := added + [child];
        all := all + [child];
        assert downloads[..i + 1] == downloads[..i] + [downloads[i]];
      }
      assert downloads[..|downloads|] == downloads;
    }

    /** Each API link the page mentions, in order. */
    method CrawlLinks(links: seq<string>, ignoreRules: seq<IgnoreRule>, rewriteRules: seq<Rule>, world: World, fuel: nat,
                      ghost before: seq<Node>, ghost parent: seq<nat>, ghost list: seq<Node>, ghost k: nat, ghost kids: seq<Node>)
      returns (ghost added: seq<Node>)
      requires Filling(before, parent, list, k, kids) && cache.Valid()
      modifies this, disk, cache
      ensures Filling(before, parent, list, k, kids + added) && cache.Valid()
      ensures Grown(old(disk.files), old(cache.visits))
      ensures Urls(added) == LinksChildren(owner, repository, ignoreRules, links)
      decreases fuel, 5
    {
      added := [];
      ghost var all := kids;
      assert all == kids + added;
      for i := 0 to |links|
        invariant Filling(before, parent, list, k, all) && all == kids + added
        invariant Grown(old(disk.files), old(cache.visits))
        invariant Urls(added) == LinksChildren(owner, repository, ignoreRules, links[..i])
        invariant cache.Valid()
      {
        ghost var more := CrawlLink(links[i], ignoreRules, rewriteRules, world, fuel, before, parent, list, k, all);
        LinksChildrenSnoc(owner, repository, ignoreRules, links, i);
        UrlsConcat(added, more);
        ConcatAssoc(kids, added, more);
        added := added + more;
        all := all + more;
      }
      assert links[..|links|] == links;
    }

    /**
     * One API link: the issue's change list when the link is an issue's own
     * endpoint, then the link itself unless the ignore chain skips it.
     */
    method CrawlLink(result: string, ignoreRules: seq<IgnoreRule>, rewriteRules: seq<Rule>, world: World, fuel: nat,
                     ghost before: seq<Node>, ghost parent: seq<nat>, ghost list: seq<Node>, ghost k: nat, ghost kids: seq<Node>)
      returns (ghost added: seq<Node>)
      requires Filling(before, parent, list, k, kids) && cache.Valid()
      modifies this, disk, cache
      ensures Filling(before, parent, list, k, kids + added) && cache.Valid()
      ensures Grown(old(disk.files), old(cache.visits))
      ensures Urls(added) == LinkChildren(owner, repository, ignoreRules, result)
      decreases fuel, 4
    {
      added := [];
      assert kids + added == kids;
      if IsIssueLink(owner, repository, result) {
        var child := CrawlInto(BbEndpointToFullUrl(result + "/changes"), ignoreRules, rewriteRules, world, fuel, before, parent, list, k, kids);
        added := [child];
      }
      ghost var issue := added;
      var skip, _ := ShouldSkip(result, ignoreRules);
      if !skip {
        var child := CrawlInto(BbEndpointToFullUrl(result), ignoreRules, rewriteRules, world, fuel, before, parent, list, k, kids + added);
        UrlsAppend(added, child);
        ConcatAssoc(kids, added, [child]);
        added := added + [child];
      }
      assert Urls(issue) == if IsIssueLink(owner, repository, result) then [BbEndpointToFullUrl(result + "/changes")] else [];
    }

    // -------------------------------------------------------------------------
    // make_urls_relative

    /**
     * Copy the stored files of `nodes` and their descendants to the publishing
     * directory, making each JSON file's children's URLs local.
     */
    method MakeUrlsRelative(nodes: seq<Node>)
      requires |savePath| > 0
      modifies disk
      ensures disk.files == RelativizeAll(old(disk.files), nodes, savePath, savePathRelative)
      decreases nodes
    {
      for i := 0 to |nodes|
        invariant disk.files == RelativizeAll(old(disk.files), nodes[..i], savePath, savePathRelative)
      {
        var item := nodes[i];
        assert nodes[..i + 1] == nodes[..i] + [item];
        RelativizeSnoc(old(disk.files), nodes[..i], item, savePath, savePathRelative);
        WriteRelative(item);
        MakeUrlsRelative(item.children);
      }
      assert nodes[..|nodes|] == nodes;
    }

    /**
     * The published copy of one node's file, unless it exists already or the
     * stored file is missing: a JSON file with its children's URLs made
     * local, any other file as it is.
     */
    method WriteRelative(item: Node)
      requires |savePath| > 0
      modifies disk
      ensures disk.files == WriteOne(old(disk.files), item, savePath, savePathRelative)
    {
      var newPath := ReplaceAll(item.endpointPath, savePath, savePathRelative);
      var skipFile := false;
      if newPath in disk.files {
        skipFile := true;
      }
      if item.endpointPath !in disk.files {
        skipFile := true;
      }
      if !skipFile {
        if EndsWith(newPath, ".json") {
          var data := RelativizeData(disk.files[item.endpointPath], item.children);
          disk.files := disk.files[newPath := data];
        } else {
          disk.files := disk.files[newPath := disk.files[item.endpointPath]];
        }
      }
    }

    /** The loop over a JSON file's children, replacing the three spellings of each child's URL. */
    method RelativizeData(text: string, children: seq<Node>) returns (data: string)
      requires |savePath| > 0
      ensures data == RelativizeText(text, children, savePath)
    {
      data := text;
      for c := 0 to |children|
        invariant data == RelativizeText(text, children[..c], savePath)
      {
        assert children[..c + 1][..c] == children[..c];
        var child := children[c];
        var newUrl := LocalUrl(child.endpointPath, savePath);
        data := ReplaceAll(data, "\"" + child.url + "\"", "\"" + newUrl + "\"");
        data := ReplaceAll(data, "\\\"" + child.url + "\\\"", "\\\"" + newUrl + "\\\"");
        data := ReplaceAll(data, "![](" + child.url + ")", "![](" + newUrl + ")");
      }
      assert children[..|children|] == children;
    }
  }

  lemma PrefixKeeps(a: seq<string>, b: seq<string>, x: string)
    requires a <= b && x in a
    ensures x in b
  {
    var i :| 0 <= i < |a| && a[i] == x;
    assert b[i] == x;
  }

  /** Filling the children of the node `n` just appended at `parent` is appending `n` with those children. */
  lemma FillingEnds(before: seq<Node>, parent: seq<nat>, n: Node, kids: seq<Node>)
    requires ListAt(before, parent).Some?
    ensures var list := ListAt(before, parent).value + [n];
      ReplaceAt(before, parent, list[|list| - 1 := list[|list| - 1].(children := kids)])
        == AppendAt(before, parent, n.(children := kids))
  {
    var list := ListAt(before, parent).value + [n];
    assert list[|list| - 1 := list[|list| - 1].(children := kids)] == ListAt(before, parent).value + [n.(children := kids)];
  }

  // ---------------------------------------------------------------------------
  // Relativization as functions

  /** A child's URL in the published copy: its stored path under `data`, with forward slashes. */
  function LocalUrl(endpointPath: string, savePath: string): string
    requires |savePath| > 0
  {
    ReplaceAll(ReplaceAll(ReplaceAll(endpointPath, savePath, "data"), "\\\\", "/"), "\\", "/")
  }

  /** The three spellings of one child's URL replaced: JSON string, escaped HTML attribute, markdown image. */
  function RelativizeChild(data: string, child: Node, savePath: string): string
    requires |savePath| > 0
  {
    var newUrl := LocalUrl(child.endpointPath, savePath);
    var d1 := ReplaceAll(data, "\"" + child.url + "\"", "\"" + newUrl + "\"");
    var d2 := ReplaceAll(d1, "\\\"" + child.url + "\\\"", "\\\"" + newUrl + "\\\"");
    ReplaceAll(d2, "![](" + child.url + ")", "![](" + newUrl + ")")
  }

  function RelativizeText(data: string, children: seq<Node>, savePath: string): string
    requires |savePath| > 0
  {
    if children == [] then data
    else RelativizeChild(RelativizeText(data, children[..|children| - 1], savePath), children[|children| - 1], savePath)
  }

  /** The three spellings of a URL that relativization rewrites. */
  predicate Spelled(data: string, url: string) {
    || Contains(data, "\"" + url + "\"")
    || Contains(data, "\\\"" + url + "\\\"")
    || Contains(data, "![](" + url + ")")
  }

  /** A text that spells none of the child's URL is left as it is. */
  lemma RelativizeChildUnchanged(data: string, child: Node, savePath: string)
    requires |savePath| > 0 && !Spelled(data, child.url)
    ensures RelativizeChild(data, child, savePath) == data
  {
    var newUrl := LocalUrl(child.endpointPath, savePath);
    ReplaceAbsent(data, "\"" + child.url + "\"", "\"" + newUrl + "\"");
    ReplaceAbsent(data, "\\\"" + child.url + "\\\"", "\\\"" + newUrl + "\\\"");
    ReplaceAbsent(data, "![](" + child.url + ")", "![](" + newUrl + ")");
  }

  /** A text that spells none of the children's URLs is left as it is. */
  lemma {:induction false} RelativizeTextUnchanged(data: string, children: seq<Node>, savePath: string)
    requires |savePath| > 0
    requires forall i :: 0 <= i < |children| ==> !Spelled(data, children[i].url)
    ensures RelativizeText(data, children, savePath) == data
  {
    if children != [] {
      var n := |children| - 1;
      RelativizeTextUnchanged(data, children[..n], savePath);
      RelativizeChildUnchanged(data, children[n], savePath);
    }
  }

  /** The local URL holds no backslash, and no quote, `!` or `)` unless the endpoint path does. */
  lemma LocalUrlChars(endpointPath: string, savePath: string)
    requires |savePath| > 0
    ensures '\\' !in LocalUrl(endpointPath, savePath)
    ensures '"' !in endpointPath ==> '"' !in LocalUrl(endpointPath, savePath)
    ensures '!' !in endpointPath ==> '!' !in LocalUrl(endpointPath, savePath)
    ensures ')' !in endpointPath ==> ')' !in LocalUrl(endpointPath, savePath)
  {
    var s1 := ReplaceAll(endpointPath, savePath, "data");
    var s2 := ReplaceAll(s1, "\\\\", "/");
    ReplaceRemovesChar(s2, '\\', "/");
    assert "\\" == ['\\'];
    forall c | c in "\"!)" && c !in endpointPath
      ensures c !in LocalUrl(endpointPath, savePath)
    {
      ReplaceKeepsCharOut(endpointPath, savePath, "data", c);
      ReplaceKeepsCharOut(s1, "\\\\", "/", c);
      ReplaceKeepsCharOut(s2, "\\", "/", c);
    }
  }

  /**
   * Once a child is relativized, none of the three spellings of its URL is
   * left, provided neither the URL nor its endpoint path holds a delimiter
   * character, the URL differs from its local form, and the text never spells
   * the URL twice around a shared quote (`"u"u"`, or its escaped form), the
   * one shape in which replacing one occurrence uncovers another.
   */
  lemma RelativizeChildLeavesNone(data: string, child: Node, savePath: string)
    requires |savePath| > 0
    requires '"' !in child.url && '\\' !in child.url && '!' !in child.url && ')' !in child.url
    requires '"' !in child.endpointPath && '!' !in child.endpointPath && ')' !in child.endpointPath
    requires child.url != LocalUrl(child.endpointPath, savePath)
    requires !Contains(data, "\"" + child.url + "\"" + child.url + "\"")
    requires !Contains(data, "\\\"" + child.url + "\\\"" + child.url + "\\\"")
    ensures !Spelled(RelativizeChild(data, child, savePath), child.url)
  {
    var u, l := child.url, LocalUrl(child.endpointPath, savePath);
    LocalUrlChars(child.endpointPath, savePath);
    var q1, r1 := "\"" + u + "\"", "\"" + l + "\"";
    var q2, r2 := "\\\"" + u + "\\\"", "\\\"" + l + "\\\"";
    var q3, r3 := "![](" + u + ")", "![](" + l + ")";
    var d1 := ReplaceAll(data, q1, r1);
    var d2 := ReplaceAll(d1, q2, r2);
    // the JSON string spelling
    DelimitedNoneLeft(data, "\"", u, l);
    QuotedKeepsEscapedOut('\\', '"', u, l);
    NoNewOccurrence(data, q1, r1, "\\\"" + u + "\\\"" + u + "\\\"");
    // the escaped spelling
    DelimitedNoneLeft(d1, "\\\"", u, l);
    EscapedKeepsQuotedOut('\\', '"', u, l);
    NoNewOccurrence(d1, q2, r2, q1);
    // the markdown image
    ImageUnrepeatable(u, l);
    NoOccurrenceLeft(d2, q3, r3, q3);
    KeepsOutByHead(q3, r3, q1);
    NoNewOccurrence(d2, q3, r3, q1);
    KeepsOutByHead(q3, r3, q2);
    NoNewOccurrence(d2, q3, r3, q2);
  }

  /** Replacing one markdown image link by another can never leave the first behind. */
  lemma ImageUnrepeatable(u: string, l: string)
    requires '!' !in u && ')' !in u && '!' !in l && ')' !in l && u != l
    ensures Unrepeatable("![](" + u + ")", "![](" + l + ")")
  {
    var qt, rt := "[](" + u + ")", "[](" + l + ")";
    EndsApart(u, l, ")", ")");
    ApartAfter("[](", u + ")", l + ")");
    assert "[](" + (u + ")") == qt && "[](" + (l + ")") == rt;
    var k :| 0 <= k < |qt| && k < |rt| && qt[k] != rt[k];
    UnrepeatableByHead('!', qt, rt, k);
    BangFront(u);
    BangFront(l);
  }

  lemma BangFront(u: string)
    ensures "![](" + u + ")" == ['!'] + ("[](" + u + ")")
  {
    assert "![](" == ['!'] + "[](";
    AppendAssoc(['!'], "[](", u);
    AppendAssoc(['!'], "[](" + u, ")");
  }

  /**
   * Without the shared-quote proviso a spelling can survive: in `"u"u"` the
   * closing quote of the replaced `"u"` is also the opening quote of the next.
   */
  lemma RelativizeChildCanLeaveUrl()
    ensures Contains(RelativizeChild("\"u\"u\"", Node("u", "u", "e", false, []), "ss"), "\"u\"")
  {
    var d1 := "\"e\"u\"";
    ShortLocalUrl();
    SharedQuoteStep();
    EscapedAndImageAbsent();
    assert d1[2..5] == "\"u\"";
    assert OccursAt(d1, "\"u\"", 2);
  }

  lemma ShortLocalUrl()
    ensures LocalUrl("e", "ss") == "e"
  {
    ReplaceShorter("e", "ss", "data");
    ReplaceShorter("e", "\\\\", "/");
    ReplaceCharAbsent("e", '\\', "/");
  }

  lemma SharedQuoteStep()
    ensures ReplaceAll("\"u\"u\"", "\"" + "u" + "\"", "\"" + "e" + "\"") == "\"e\"u\""
  {
    assert "\"" + "u" + "\"" == "\"u\"" && "\"" + "e" + "\"" == "\"e\"";
    ReplaceLeading("\"u\"", "u\"", "\"e\"");
    assert "\"u\"" + "u\"" == "\"u\"u\"";
    ReplaceShorter("u\"", "\"u\"", "\"e\"");
  }

  lemma EscapedAndImageAbsent()
    ensures ReplaceAll("\"e\"u\"", "\\\"" + "u" + "\\\"", "\\\"" + "e" + "\\\"") == "\"e\"u\""
    ensures ReplaceAll("\"e\"u\"", "![](" + "u" + ")", "![](" + "e" + ")") == "\"e\"u\""
  {
    var d1 := "\"e\"u\"";
    var q2 := "\\\"" + "u" + "\\\"";
    assert q2[0] == '\\' && d1[0] != '\\';
    assert !OccursAt(d1, q2, 0);
    ReplaceAbsent(d1, q2, "\\\"" + "e" + "\\\"");
    ReplaceShorter(d1, "![](" + "u" + ")", "![](" + "e" + ")");
  }

  /**
   * Across children the result does not carry over: a later child whose
   * local URL is an earlier child's URL spells that URL again. Here the
   * text `"b"` holds no spelling of `a` after the first child, but the
   * second child, stored at `a`, turns it into `"a"`.
   */
  lemma RelativizeTextCanRespell()
    ensures var first, second := Node("a", "a", "x", false, []), Node("b", "b", "a", false, []);
      && !Spelled(RelativizeText("\"b\"", [first], "ss"), first.url)
      && Spelled(RelativizeText("\"b\"", [first, second], "ss"), first.url)
  {
    var first, second := Node("a", "a", "x", false, []), Node("b", "b", "a", false, []);
    QuotedBSpellsNoA();
    RelativizeChildUnchanged("\"b\"", first, "ss");
    assert [first][..0] == [] && [first, second][..1] == [first];
    RespellStep(second);
    assert OccursAt("\"a\"", "\"" + first.url + "\"", 0);
  }

  lemma QuotedBSpellsNoA()
    ensures !Spelled("\"b\"", "a")
  {
    var s := "\"b\"";
    forall i: nat | i <= |s|
      ensures !OccursAt(s, "\"" + "a" + "\"", i)
    {
      if i == 0 {
        assert s[0..3][1] == 'b';
      }
    }
  }

  lemma RespellStep(second: Node)
    requires second == Node("b", "b", "a", false, [])
    ensures RelativizeChild("\"b\"", second, "ss") == "\"a\""
  {
    ReplaceShorter("a", "ss", "data");
    ReplaceShorter("a", "\\\\", "/");
    ReplaceCharAbsent("a", '\\', "/");
    assert "\"" + "b" + "\"" == "\"b\"" && "\"" + "a" + "\"" == "\"a\"";
    ReplaceWhole("\"b\"", "\"a\"");
    ReplaceShorter("\"a\"", "\\\"" + "b" + "\\\"", "\\\"" + "a" + "\\\"");
    ReplaceShorter("\"a\"", "![](" + "b" + ")", "![](" + "a" + ")");
  }

  /**
   * The file one node contributes: nothing when the published copy already
   * exists or the stored file is missing; otherwise the relativized JSON or
   * a byte copy.
   */
  function WriteOne(files: map<string, string>, item: Node, savePath: string, savePathRelative: string): (r: map<string, string>)
    requires |savePath| > 0
    ensures var newPath := ReplaceAll(item.endpointPath, savePath, savePathRelative);
      if newPath in files || item.endpointPath !in files then r == files
      else r.Keys == files.Keys + {newPath}
  {
    var newPath := ReplaceAll(item.endpointPath, savePath, savePathRelative);
    if newPath in files || item.endpointPath !in files then files
    else if EndsWith(newPath, ".json") then files[newPath := RelativizeText(files[item.endpointPath], item.children, savePath)]
    else files[newPath := files[item.endpointPath]]
  }

  /** Each node in order, its descendants right after it. */
  function RelativizeAll(files: map<string, string>, nodes: seq<Node>, savePath: string, savePathRelative: string): map<string, string>
    requires |savePath| > 0
    decreases nodes
  {
    if nodes == [] then files
    else
      var last := nodes[|nodes| - 1];
      var before := RelativizeAll(files, nodes[..|nodes| - 1], savePath, savePathRelative);
      RelativizeAll(WriteOne(before, last, savePath, savePathRelative), last.children, savePath, savePathRelative)
  }

  lemma RelativizeSnoc(files: map<string, string>, nodes: seq<Node>, item: Node, savePath: string, savePathRelative: string)
    requires |savePath| > 0
    ensures RelativizeAll(files, nodes + [item], savePath, savePathRelative)
         == RelativizeAll(WriteOne(RelativizeAll(files, nodes, savePath, savePathRelative), item, savePath, savePathRelative),
                          item.children, savePath, savePathRelative)
  {
    assert (nodes + [item])[..|nodes|] == nodes;
  }

  /** Relativization only adds files: nothing on disk beforehand is changed. */
  lemma {:induction false} RelativizeWritesOnce(files: map<string, string>, nodes: seq<Node>, savePath: string, savePathRelative: string)
    requires |savePath| > 0
    ensures var r := RelativizeAll(files, nodes, savePath, savePathRelative);
      files.Keys <= r.Keys && forall p :: p in files ==> r[p] == files[p]
    decreases nodes
  {
    if nodes != [] {
      var last := nodes[|nodes| - 1];
      var before := RelativizeAll(files, nodes[..|nodes| - 1], savePath, savePathRelative);
      RelativizeWritesOnce(files, nodes[..|nodes| - 1], savePath, savePathRelative);
      var written := WriteOne(before, last, savePath, savePathRelative);
      RelativizeWritesOnce(written, last.children, savePath, savePathRelative);
    }
  }
}
