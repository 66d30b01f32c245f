/**
 * `memoize`: a decorator whose instance keeps one cache of results, keyed
 * by a text built from the call's arguments, for the function it wraps.
 * Arguments are held as their `str()` texts; keyword arguments as
 * (name, text) pairs in the order they were passed.
 */
module Memo {
  import opened Strings

  type KwArgs = seq<(string, string)>

  function KwTexts(kwargs: KwArgs): (texts: seq<string>)
    ensures |texts| == |kwargs|
    ensures forall i :: 0 <= i < |kwargs| ==> texts[i] == kwargs[i].0 + "=" + kwargs[i].1
  {
    if kwargs == [] then [] else [kwargs[0].0 + "=" + kwargs[0].1] + KwTexts(kwargs[1..])
  }

  /** `make_key`: the positional texts joined by `-`, then the `name=value` texts joined by `-`, with nothing between the two. */
  function MakeKey(args: seq<string>, kwargs: KwArgs): string {
    Join("-", args) + Join("-", KwTexts(kwargs))
  }

  /** A call with positional arguments only is keyed by their texts joined with `-`; a single argument by its own text. */
  lemma PositionalKey(args: seq<string>)
    ensures MakeKey(args, []) == Join("-", args)
    ensures |args| == 1 ==> MakeKey(args, []) == args[0]
  {
    assert KwTexts([]) == [];
  }

  lemma {:induction false} JoinInjective(c: char, xs: seq<string>, ys: seq<string>)
    requires |xs| == |ys|
    requires forall i :: 0 <= i < |xs| ==> c !in xs[i]
    requires forall i :: 0 <= i < |ys| ==> c !in ys[i]
    requires Join([c], xs) == Join([c], ys)
    ensures xs == ys
  {
    if |xs| > 1 {
      var restX, restY := Join([c], xs[1..]), Join([c], ys[1..]);
      FieldBeforeSeparator(xs[0], c, restX);
      FieldBeforeSeparator(ys[0], c, restY);
      assert xs[0] + [c] + restX == ys[0] + [c] + restY;
      assert restX == (xs[0] + [c] + restX)[|xs[0]| + 1..];
      assert restY == (ys[0] + [c] + restY)[|ys[0]| + 1..];
      JoinInjective(c, xs[1..], ys[1..]);
      assert xs == [xs[0]] + xs[1..] && ys == [ys[0]] + ys[1..];
    }
  }

  /**
   * Calls with the same number of positional arguments and no keywords get
   * different keys when their texts differ and hold no `-`.
   */
  lemma PositionalKeysDistinct(xs: seq<string>, ys: seq<string>)
    requires |xs| == |ys| && xs != ys
    requires forall i :: 0 <= i < |xs| ==> '-' !in xs[i]
    requires forall i :: 0 <= i < |ys| ==> '-' !in ys[i]
    ensures MakeKey(xs, []) != MakeKey(ys, [])
  {
    PositionalKey(xs);
    PositionalKey(ys);
    if Join("-", xs) == Join("-", ys) {
      JoinInjective('-', xs, ys);
    }
  }

  /**
   * Different calls can share a key: an argument holding `-` against two
   * arguments, and a positional `x=1` against the keyword `x=1`.
   */
  lemma KeysCollide()
    ensures MakeKey(["a-b"], []) == MakeKey(["a", "b"], [])
    ensures MakeKey(["x=1"], []) == MakeKey([], [("x", "1")])
  {
    PositionalKey(["a-b"]);
    PositionalKey(["a", "b"]);
    assert Join("-", ["a", "b"]) == "a" + "-" + "b";
    assert KwTexts([("x", "1")]) == ["x" + "=" + "1"];
  }

  /** A memoized function: the wrapped `func` and the decorator's `cache`. */
  class Memoized<V> {
    const func: (seq<string>, KwArgs) -> V
    var cache: map<string, V>
    /** The key of every call that reached `func`, in order. */
    ghost var computed: seq<string>
    /** The arguments each cached result was computed from. */
    ghost var source: map<string, (seq<string>, KwArgs)>

    ghost predicate Valid()
      reads this
    {
      && cache.Keys == source.Keys
      && (forall k :: k in cache <==> k in computed)
      && (forall i, j :: 0 <= i < j < |computed| ==> computed[i] != computed[j])
      && (forall k :: k in cache ==>
            MakeKey(source[k].0, source[k].1) == k && cache[k] == func(source[k].0, source[k].1))
    }

    /** `memoize()` applied to `func`: an empty cache. */
    constructor (func: (seq<string>, KwArgs) -> V)
      ensures Valid()
      ensures this.func == func && cache == map[] && computed == []
    {
      this.func := func;
      cache := map[];
      computed := [];
      source := map[];
    }

    /**
     * `wrap(*args, **kw)`: a key already in the cache returns the cached
     * result and changes nothing; otherwise `func` runs once and its result
     * is cached under the key.
     */
    method Call(args: seq<string>, kwargs: KwArgs) returns (res: V)
      requires Valid()
      modifies this
      ensures Valid()
      ensures var key := MakeKey(args, kwargs);
        if key in old(cache) then
          && res == old(cache)[key] && cache == old(cache) && computed == old(computed)
        else
          && res == func(args, kwargs) && cache == old(cache)[key := res]
          && computed == old(computed) + [key]
    {
      var key := MakeKey(args, kwargs);
      if key in cache {
        res := cache[key];
        return;
      }
      res := func(args, kwargs);
      cache := cache[key := res];
      computed := computed + [key];
      source := source[key := (args, kwargs)];
    }
  }

  /** Every result handed out is `func` applied to some call with the same key, and `func` ran once per key. */
  lemma CachedResultsComeFromFunc<V>(m: Memoized<V>, key: string)
    requires m.Valid() && key in m.cache
    ensures exists args: seq<string>, kwargs: KwArgs ::
      MakeKey(args, kwargs) == key && m.cache[key] == m.func(args, kwargs)
    ensures |m.computed| == |m.cache|
  {
    var (args, kwargs) := m.source[key];
    assert MakeKey(args, kwargs) == key;
    DistinctCount(m.computed, m.cache.Keys);
  }

  lemma {:induction false} DistinctCount(s: seq<string>, keys: set<string>)
    requires forall k :: k in keys <==> k in s
    requires forall i, j :: 0 <= i < j < |s| ==> s[i] != s[j]
    ensures |s| == |keys|
  {
    if s != [] {
      var last := s[|s| - 1];
      var init := s[..|s| - 1];
      assert last !in init;
      assert forall k :: k in keys - {last} <==> k in init;
      DistinctCount(init, keys - {last});
    }
  }
}
