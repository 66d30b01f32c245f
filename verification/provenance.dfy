/**
 * The provenance tree the crawler builds: one node per fetch or download,
 * held in nested child lists, and the cursor (a path of indices) that says
 * where the next node goes.
 */
module Provenance {
  import opened Wrappers

  /** One entry of the tree: `url`, `rewritten_url`, `endpoint_path`, `already_processed`, `children`. */
  datatype Node = Node(
    url: string,
    rewrittenUrl: string,
    endpointPath: string,
    alreadyProcessed: bool,
    children: seq<Node>)

  // ---------------------------------------------------------------------------
  // Addressing child lists

  /**
   * The list reached from `forest` by following `path`, each index selecting
   * a node whose `children` are entered next; `None` when an index is out of
   * range.
   */
  function ListAt(forest: seq<Node>, path: seq<nat>): Option<seq<Node>>
    decreases path
  {
    if path == [] then Some(forest)
    else if path[0] < |forest| then ListAt(forest[path[0]].children, path[1..])
    else None
  }

  /** `forest` with the list at `path` replaced by `list`; everything else is kept. */
  function ReplaceAt(forest: seq<Node>, path: seq<nat>, list: seq<Node>): (r: seq<Node>)
    requires ListAt(forest, path).Some?
    ensures ListAt(r, path) == Some(list)
    ensures path != [] ==> |r| == |forest|
    decreases path
  {
    if path == [] then list
    else
      var i := path[0];
      var r := forest[i := forest[i].(children := ReplaceAt(forest[i].children, path[1..], list))];
      assert r[i].children == ReplaceAt(forest[i].children, path[1..], list);
      r
  }

  /** `list.append(node)` on the list at `path`. */
  function AppendAt(forest: seq<Node>, path: seq<nat>, node: Node): (r: seq<Node>)
    requires ListAt(forest, path).Some?
    ensures ListAt(r, path) == Some(ListAt(forest, path).value + [node])
  {
    ReplaceAt(forest, path, ListAt(forest, path).value + [node])
  }

  /** Replacing a list by itself changes nothing. */
  lemma {:induction false} ReplaceBySelf(forest: seq<Node>, path: seq<nat>)
    requires ListAt(forest, path).Some?
    ensures ReplaceAt(forest, path, ListAt(forest, path).value) == forest
    decreases path
  {
    if path != [] {
      ReplaceBySelf(forest[path[0]].children, path[1..]);
    }
  }

  /** A second replacement at the same place overrides the first. */
  lemma {:induction false} ReplaceTwice(forest: seq<Node>, path: seq<nat>, first: seq<Node>, second: seq<Node>)
    requires ListAt(forest, path).Some?
    ensures ReplaceAt(ReplaceAt(forest, path, first), path, second) == ReplaceAt(forest, path, second)
    decreases path
  {
    if path != [] {
      ReplaceTwice(forest[path[0]].children, path[1..], first, second);
    }
  }

  /**
   * Editing the children of the `k`-th node of a list just put at `path` is
   * the same as putting the edited list there in the first place.
   */
  lemma {:induction false} ReplaceInside(forest: seq<Node>, path: seq<nat>, list: seq<Node>, k: nat, children: seq<Node>)
    requires ListAt(forest, path).Some? && k < |list|
    ensures ListAt(ReplaceAt(forest, path, list), path + [k]) == Some(list[k].children)
    ensures ReplaceAt(ReplaceAt(forest, path, list), path + [k], children)
         == ReplaceAt(forest, path, list[k := list[k].(children := children)])
    decreases path
  {
    if path == [] {
      assert [k][1..] == [];
    } else {
      assert (path + [k])[0] == path[0] && (path + [k])[1..] == path[1..] + [k];
      ReplaceInside(forest[path[0]].children, path[1..], list, k, children);
    }
  }

  /**
   * The step the crawler repeats while filling in the children of the `k`-th
   * node of the list at `path`: with `kids` in place, the list at `path + [k]`
   * is `kids`, and appending `c` there is putting `kids + [c]` in place.
   */
  lemma ChildStep(forest: seq<Node>, path: seq<nat>, list: seq<Node>, k: nat, kids: seq<Node>, c: Node)
    requires ListAt(forest, path).Some? && k < |list|
    ensures ListAt(ReplaceAt(forest, path, list[k := list[k].(children := kids)]), path + [k]) == Some(kids)
    ensures AppendAt(ReplaceAt(forest, path, list[k := list[k].(children := kids)]), path + [k], c)
         == ReplaceAt(forest, path, list[k := list[k].(children := kids + [c])])
  {
    var current := list[k := list[k].(children := kids)];
    ReplaceInside(forest, path, current, k, kids + [c]);
    assert current[k := current[k].(children := kids + [c])] == list[k := list[k].(children := kids + [c])];
    ReplaceTwice(forest, path, current, current[k := current[k].(children := kids + [c])]);
  }

  /** Following a path visits existing lists only: each prefix of a valid path leads to a list, one node deeper each step. */
  lemma {:induction false} ListAtDescend(forest: seq<Node>, path: seq<nat>, k: nat)
    requires ListAt(forest, path).Some? && k < |path|
    ensures ListAt(forest, path[..k]).Some?
    ensures path[k] < |ListAt(forest, path[..k]).value|
    ensures ListAt(forest, path[..k + 1]) == Some(ListAt(forest, path[..k]).value[path[k]].children)
    decreases path
  {
    if k == 0 {
      assert path[..1] == [path[0]] && [path[0]][1..] == [];
    } else {
      ListAtDescend(forest[path[0]].children, path[1..], k - 1);
      assert path[..k][0] == path[0] && path[..k][1..] == path[1..][..k - 1];
      assert path[..k + 1][0] == path[0] && path[..k + 1][1..] == path[1..][..k];
    }
  }

  /** One index further down an existing list leads to that node's children. */
  lemma {:induction false} ListAtSnoc(forest: seq<Node>, path: seq<nat>, i: nat)
    requires ListAt(forest, path).Some? && i < |ListAt(forest, path).value|
    ensures ListAt(forest, path + [i]) == Some(ListAt(forest, path).value[i].children)
    decreases path
  {
    if path == [] {
      assert [i][1..] == [];
    } else {
      assert (path + [i])[0] == path[0] && (path + [i])[1..] == path[1..] + [i];
      ListAtSnoc(forest[path[0]].children, path[1..], i);
    }
  }

  /** Appending `n` and then putting `n'` in its place is appending `n'`. */
  lemma ReplaceLast(forest: seq<Node>, path: seq<nat>, n: Node, n': Node)
    requires ListAt(forest, path).Some?
    ensures ReplaceAt(AppendAt(forest, path, n), path, ListAt(forest, path).value + [n']) == AppendAt(forest, path, n')
  {
    ReplaceTwice(forest, path, ListAt(forest, path).value + [n], ListAt(forest, path).value + [n']);
  }

  /** The `url` of each node. */
  function Urls(nodes: seq<Node>): seq<string> {
    if nodes == [] then [] else Urls(nodes[..|nodes| - 1]) + [nodes[|nodes| - 1].url]
  }

  lemma {:induction false} UrlsIndex(nodes: seq<Node>)
    ensures |Urls(nodes)| == |nodes|
    ensures forall i :: 0 <= i < |nodes| ==> Urls(nodes)[i] == nodes[i].url
  {
    if nodes != [] {
      UrlsIndex(nodes[..|nodes| - 1]);
    }
  }

  lemma ConcatAssoc(a: seq<Node>, b: seq<Node>, c: seq<Node>)
    ensures a + b + c == a + (b + c)
  {
  }

  lemma UrlsAppend(nodes: seq<Node>, c: Node)
    ensures Urls(nodes + [c]) == Urls(nodes) + [c.url]
  {
    assert (nodes + [c])[..|nodes|] == nodes;
  }

  lemma {:induction false} UrlsConcat(a: seq<Node>, b: seq<Node>)
    ensures Urls(a + b) == Urls(a) + Urls(b)
    decreases |b|
  {
    if b != [] {
      var init := b[..|b| - 1];
      UrlsConcat(a, init);
      assert a + b == (a + init) + [b[|b| - 1]];
      UrlsAppend(a + init, b[|b| - 1]);
    } else {
      assert a + b == a;
    }
  }

  // ---------------------------------------------------------------------------
  // The cursor

  /** `tree_new_level`: descend into the children of the node just added. */
  function NewLevel(cursor: seq<nat>): seq<nat> {
    cursor + [0]
  }

  /** `tree_finished_level`: drop the last index (an empty cursor stays empty). */
  function FinishedLevel(cursor: seq<nat>): seq<nat> {
    if cursor == [] then [] else cursor[..|cursor| - 1]
  }

  /** `tree_increment_level`: move to the next sibling slot. */
  function IncrementLevel(cursor: seq<nat>): seq<nat>
    requires cursor != []
  {
    cursor[..|cursor| - 1] + [cursor[|cursor| - 1] + 1]
  }

  /** The path of the list the cursor points into. */
  function Parent(cursor: seq<nat>): seq<nat> {
    FinishedLevel(cursor)
  }

  lemma FinishedUndoesNew(cursor: seq<nat>)
    ensures FinishedLevel(NewLevel(cursor)) == cursor
    ensures Parent(NewLevel(cursor)) == cursor
  {
    assert (cursor + [0])[..|cursor|] == cursor;
  }

  /** Incrementing keeps the length and the parent, and raises only the last index. */
  lemma IncrementKeepsParent(cursor: seq<nat>)
    requires cursor != []
    ensures |IncrementLevel(cursor)| == |cursor|
    ensures Parent(IncrementLevel(cursor)) == Parent(cursor)
    ensures IncrementLevel(cursor)[|cursor| - 1] == cursor[|cursor| - 1] + 1
  {
    var c := IncrementLevel(cursor);
    assert c[..|c| - 1] == cursor[..|cursor| - 1];
  }
}
