/**
 * The string operations the exporter leans on, with Python's semantics:
 * `str.startswith`, `str.endswith`, `in`, `str.replace`, slicing, `str.join`,
 * `str.strip`, `str.isdigit`, `int(...)`, `str(int)` and the code-point
 * ordering `<` that `sorted` and `bisect` use.
 */
module Strings {

  // ---------------------------------------------------------------------------
  // Occurrence

  predicate StartsWith(s: string, p: string) { p <= s }

  lemma PrefixOfPrefix(s: string, a: string, b: string)
    ensures StartsWith(s, a + b) ==> StartsWith(s, a)
  {
    if StartsWith(s, a + b) {
      assert s[..|a|] == (a + b)[..|a|] == a;
    }
  }

  predicate EndsWith(s: string, p: string) {
    |p| <= |s| && s[|s| - |p|..] == p
  }

  /** A concatenation starts with its first part and ends with its second. */
  lemma ConcatEnds(a: string, b: string)
    ensures StartsWith(a + b, a) && EndsWith(a + b, b)
  {
    assert (a + b)[..|a|] == a;
    assert (a + b)[|a|..] == b;
  }

  lemma StartsWithExtend(s: string, p: string, t: string)
    requires StartsWith(s, p)
    ensures StartsWith(s + t, p)
  {
    assert (s + t)[..|s|] == s;
  }

  /** A concatenation of three parts starts with the first and ends with the last two. */
  lemma ConcatEnds3(a: string, b: string, c: string)
    ensures StartsWith(a + b + c, a) && EndsWith(a + b + c, b + c)
  {
    assert a + b + c == a + (b + c);
    ConcatEnds(a, b + c);
  }

  lemma SuffixOfSuffix(s: string, a: string, b: string)
    ensures EndsWith(s, a + b) ==> EndsWith(s, b)
  {
    if EndsWith(s, a + b) {
      assert s[|s| - |b|..] == s[|s| - |a + b|..][|a|..] == (a + b)[|a|..] == b;
    }
  }

  /** `p` occurs in `s` starting at index `i`. */
  predicate OccursAt(s: string, p: string, i: nat) {
    i + |p| <= |s| && s[i..i + |p|] == p
  }

  /** Python's `p in s`. */
  predicate Contains(s: string, p: string) {
    exists i: nat | i <= |s| :: OccursAt(s, p, i)
  }

  lemma OccursAtFront(a: string, b: string)
    ensures OccursAt(a + b, a, 0)
  {
    assert (a + b)[0..|a|] == a;
  }

  lemma OccursAtMiddle(a: string, b: string, c: string)
    ensures OccursAt(a + b + c, b, |a|)
  {
    assert (a + b + c)[|a|..|a| + |b|] == b;
  }

  lemma OccursAtEnd(a: string, b: string)
    ensures OccursAt(a + b, b, |a|)
  {
    assert (a + b)[|a|..|a| + |b|] == b;
  }

  lemma OccursAtExtend(s: string, p: string, i: nat, t: string)
    requires OccursAt(s, p, i)
    ensures OccursAt(s + t, p, i)
  {
    assert (s + t)[i..i + |p|] == s[i..i + |p|];
  }

  lemma OccursAtIndex(s: string, p: string, i: nat, k: nat)
    requires OccursAt(s, p, i) && k < |p|
    ensures s[i + k] == p[k]
  {
    assert s[i..i + |p|][k] == s[i + k];
  }

  /** An occurrence of `a` followed by one of `b` is an occurrence of `a + b`. */
  lemma OccursAtJoin(s: string, a: string, b: string, i: nat)
    requires OccursAt(s, a, i) && OccursAt(s, b, i + |a|)
    ensures OccursAt(s, a + b, i)
  {
    assert s[i..i + |a + b|] == s[i..i + |a|] + s[i + |a|..i + |a| + |b|];
  }

  /** An occurrence of `a + b` is an occurrence of `a`. */
  lemma OccursAtPrefix(s: string, a: string, b: string, i: nat)
    requires OccursAt(s, a + b, i)
    ensures OccursAt(s, a, i)
  {
    assert s[i..i + |a|] == s[i..i + |a + b|][..|a|] == (a + b)[..|a|] == a;
  }

  /** An occurrence of `a + b` is an occurrence of `a` followed by one of `b`. */
  lemma OccursAtSplit(s: string, a: string, b: string, i: nat)
    requires OccursAt(s, a + b, i)
    ensures OccursAt(s, a, i) && OccursAt(s, b, i + |a|)
  {
    OccursAtPrefix(s, a, b, i);
    assert s[i + |a|..i + |a| + |b|] == s[i..i + |a + b|][|a|..] == (a + b)[|a|..] == b;
  }

  /** An occurrence of `a + b + c` is one of each, side by side. */
  lemma OccursAtSplit3(s: string, a: string, b: string, c: string, i: nat)
    requires OccursAt(s, a + b + c, i)
    ensures OccursAt(s, a, i) && OccursAt(s, b, i + |a|) && OccursAt(s, c, i + |a| + |b|)
    ensures |a + b + c| == |a| + |b| + |c|
  {
    assert a + b + c == a + (b + c);
    OccursAtSplit(s, a, b + c, i);
    OccursAtSplit(s, b, c, i + |a|);
  }

  /** A text that does not contain `a` contains nothing that begins with `a`. */
  lemma ContainsPrefix(s: string, a: string, b: string)
    ensures Contains(s, a + b) ==> Contains(s, a)
  {
    if Contains(s, a + b) {
      var i: nat :| i <= |s| && OccursAt(s, a + b, i);
      OccursAtPrefix(s, a, b, i);
    }
  }

  lemma OccursAtShift(s: string, p: string, i: nat)
    requires |s| > 0 && OccursAt(s[1..], p, i)
    ensures OccursAt(s, p, i + 1)
  {
    assert s[i + 1..i + 1 + |p|] == s[1..][i..i + |p|];
  }

  lemma OccursAtTail(s: string, p: string, i: nat)
    requires |s| > 0 && i > 0 && OccursAt(s, p, i)
    ensures OccursAt(s[1..], p, i - 1)
  {
    assert s[1..][i - 1..i - 1 + |p|] == s[i..i + |p|];
  }

  /** A slice that lies wholly in the right operand of a concatenation. */
  lemma SliceRight(a: string, b: string, i: nat, j: nat)
    requires |a| <= i <= j <= |a| + |b|
    ensures (a + b)[i..j] == b[i - |a|..j - |a|]
  {
    assert forall k :: i <= k < j ==> (a + b)[k] == b[k - |a|];
  }

  // ---------------------------------------------------------------------------
  // str.replace

  /**
   * Python's `s.replace(p, r)`: scan left to right and replace every
   * non-overlapping occurrence of the (non-empty) pattern `p` by `r`; the
   * text that `r` brings in is not scanned again.
   */
  function ReplaceAll(s: string, p: string, r: string): (res: string)
    requires |p| > 0
    decreases |s|
  {
    if s == [] then []
    else if p <= s then r + ReplaceAll(s[|p|..], p, r)
    else [s[0]] + ReplaceAll(s[1..], p, r)
  }

  /** Replacing a pattern that does not occur changes nothing. */
  lemma {:induction false} ReplaceAbsent(s: string, p: string, r: string)
    requires |p| > 0 && !Contains(s, p)
    ensures ReplaceAll(s, p, r) == s
  {
    if s != [] {
      assert !OccursAt(s, p, 0);
      assert !(p <= s);
      if Contains(s[1..], p) {
        ContainsTail(s, p);
      }
      ReplaceAbsent(s[1..], p, r);
    }
  }

  /** What the tail of a text contains, the text contains. */
  lemma ContainsTail(s: string, p: string)
    requires |s| > 0 && Contains(s[1..], p)
    ensures Contains(s, p)
  {
    var i: nat :| OccursAt(s[1..], p, i);
    OccursAtShift(s, p, i);
  }

  /** A pattern longer than the text cannot occur in it, so nothing is replaced. */
  lemma ReplaceShorter(s: string, p: string, r: string)
    requires |s| < |p|
    ensures ReplaceAll(s, p, r) == s
  {
    assert forall i: nat | i <= |s| :: !OccursAt(s, p, i);
    ReplaceAbsent(s, p, r);
  }

  /** A text that begins with the pattern has its first occurrence replaced there. */
  lemma ReplaceLeading(p: string, t: string, r: string)
    requires |p| > 0
    ensures ReplaceAll(p + t, p, r) == r + ReplaceAll(t, p, r)
  {
    assert p <= p + t;
    assert (p + t)[|p|..] == t;
  }

  /** A character that cannot start the pattern is copied. */
  lemma ReplaceSkip(c: char, t: string, p: string, r: string)
    requires |p| > 0 && p[0] != c
    ensures ReplaceAll([c] + t, p, r) == [c] + ReplaceAll(t, p, r)
  {
    assert ([c] + t)[1..] == t;
  }

  lemma AppendAssoc(a: string, b: string, c: string)
    ensures a + b + c == a + (b + c)
  {
  }

  /** Replacing a text that is exactly the pattern yields the replacement. */
  lemma ReplaceWhole(p: string, r: string)
    requires |p| > 0
    ensures ReplaceAll(p, p, r) == r
  {
    ReplaceLeading(p, [], r);
    assert p + [] == p;
  }

  /** A one-character pattern cannot straddle two texts, so they are replaced separately. */
  lemma {:induction false} ReplaceCharConcat(a: string, b: string, x: char, r: string)
    ensures ReplaceAll(a + b, [x], r) == ReplaceAll(a, [x], r) + ReplaceAll(b, [x], r)
  {
    if a != [] {
      ReplaceCharConcat(a[1..], b, x, r);
      assert (a + b)[1..] == a[1..] + b;
      assert [x] <= a + b <==> [x] <= a;
    } else {
      assert a + b == b;
    }
  }

  /** A character that does not occur is not replaced. */
  lemma {:induction false} ReplaceCharAbsent(a: string, x: char, r: string)
    requires x !in a
    ensures ReplaceAll(a, [x], r) == a
  {
    if a != [] {
      ReplaceCharAbsent(a[1..], x, r);
      assert a[0] != x;
    }
  }

  /**
   * If every character of `q` differs from the first character of `r`, then
   * `ReplaceAll(t, p, r)` begins with `q` only when `t` itself does: text in
   * front of a replacement is copied unchanged.
   */
  lemma {:induction false} ReplacedPrefix(t: string, p: string, r: string, q: string)
    requires |p| > 0 && |r| > 0
    requires q == [] || q[0] != r[0]
    requires forall j :: 0 <= j < |q| ==> q[j] != r[0]
    requires q <= ReplaceAll(t, p, r)
    ensures q <= t
  {
    if q != [] && t != [] {
      if p <= t {
        assert false;
      } else {
        assert q[1..] <= ReplaceAll(t[1..], p, r);
        ReplacedPrefix(t[1..], p, r, q[1..]);
      }
    }
  }

  /**
   * When the pattern's first character `h` occurs nowhere else in the pattern,
   * no `h`-started tail of the replacement is a prefix of the pattern (nor
   * contains it), and the replacement starts with a character that is not in
   * the rest of the pattern, then `ReplaceAll` never leaves an occurrence of
   * `q` behind, provided `t` had none or `q` is the pattern being replaced.
   */
  predicate Unrepeatable(q: string, r: string) {
    && |q| > 0 && |r| > 0
    && (forall j :: 1 <= j < |q| ==> q[j] != q[0])
    && (forall j :: 1 <= j < |q| ==> q[j] != r[0])
    && (forall i :: 0 <= i < |r| && r[i] == q[0] ==> !(r[i..] <= q) && !(q <= r[i..]))
  }

  /**
   * Two texts that start with the same character `c`, differ before either
   * ends, and hold no other `c`: neither can rebuild the other.
   */
  lemma UnrepeatableByHead(c: char, qt: string, rt: string, k: nat)
    requires c !in qt && c !in rt
    requires k < |qt| && k < |rt| && qt[k] != rt[k]
    ensures Unrepeatable([c] + qt, [c] + rt)
  {
    var q, r := [c] + qt, [c] + rt;
    assert forall j :: 1 <= j < |q| ==> q[j] == qt[j - 1];
    assert forall i :: 1 <= i < |r| ==> r[i] == rt[i - 1];
    assert r[0..] == r;
    assert q[k + 1] != r[k + 1];
  }

  lemma {:induction false} NoOccurrenceLeft(t: string, p: string, r: string, q: string)
    requires |p| > 0 && Unrepeatable(q, r)
    requires p == q || !Contains(t, q)
    ensures !Contains(ReplaceAll(t, p, r), q)
  {
    if t == [] {
      assert !OccursAt(ReplaceAll(t, p, r), q, 0);
    } else if p <= t {
      var rest := t[|p|..];
      ContainsDrop(t, |p|, q);
      NoOccurrenceLeft(rest, p, r, q);
      NoOccurrenceAfterReplacement(r, ReplaceAll(rest, p, r), q);
    } else {
      ContainsDrop(t, 1, q);
      assert !OccursAt(t, q, 0);
      NoOccurrenceLeft(t[1..], p, r, q);
      NoOccurrenceAfterCopy(t, p, r, q);
    }
  }

  /** An occurrence in a suffix is an occurrence in the whole text. */
  lemma ContainsDrop(s: string, k: nat, q: string)
    requires k <= |s|
    ensures Contains(s[k..], q) ==> Contains(s, q)
  {
    if Contains(s[k..], q) {
      var i: nat :| OccursAt(s[k..], q, i);
      assert OccursAt(s[k..], q, i);
      assert s[k + i..k + i + |q|] == s[k..][i..i + |q|];
      assert OccursAt(s, q, k + i);
    }
  }

  /** Case of `NoOccurrenceLeft` where the text starts with a replacement. */
  lemma NoOccurrenceAfterReplacement(r: string, tail: string, q: string)
    requires Unrepeatable(q, r) && !Contains(tail, q)
    ensures !Contains(r + tail, q)
  {
    var res := r + tail;
    forall i: nat | i <= |res|
      ensures !OccursAt(res, q, i)
    {
      if i < |r| {
        NotInsideReplacement(r, tail, q, i);
      } else if i + |q| <= |res| {
        SliceRight(r, tail, i, i + |q|);
        assert !OccursAt(tail, q, i - |r|);
      }
    }
  }

  /** No occurrence of `q` starts inside the replacement text `r`. */
  lemma NotInsideReplacement(r: string, tail: string, q: string, i: nat)
    requires Unrepeatable(q, r) && i < |r|
    ensures !OccursAt(r + tail, q, i)
  {
    var res := r + tail;
    if i + |q| <= |res| {
      if i + |q| <= |r| {
        assert res[i..i + |q|] == r[i..][..|q|];
      } else {
        assert res[i..|r|] == r[i..];
        assert res[i..i + |q|][..|r| - i] == res[i..|r|];
      }
    }
  }

  /** Case of `NoOccurrenceLeft` where the text's first character is copied. */
  lemma NoOccurrenceAfterCopy(t: string, p: string, r: string, q: string)
    requires |p| > 0 && Unrepeatable(q, r)
    requires t != [] && !(p <= t) && !OccursAt(t, q, 0)
    requires !Contains(ReplaceAll(t[1..], p, r), q)
    ensures !Contains(ReplaceAll(t, p, r), q)
  {
    CopiedPrefix(t, p, r, q);
    NoOccurrenceAfterChar(t[0], ReplaceAll(t[1..], p, r), q);
  }

  /** Prepending one character adds at most the occurrence at the front. */
  lemma NoOccurrenceAfterChar(c: char, tail: string, q: string)
    requires !Contains(tail, q) && !OccursAt([c] + tail, q, 0)
    ensures !Contains([c] + tail, q)
  {
    var res := [c] + tail;
    forall i: nat | 0 < i <= |res| && i + |q| <= |res|
      ensures !OccursAt(res, q, i)
    {
      SliceRight([c], tail, i, i + |q|);
      assert !OccursAt(tail, q, i - 1);
    }
  }

  /** An occurrence at the front of the output was already at the front of the input. */
  lemma CopiedPrefix(t: string, p: string, r: string, q: string)
    requires |p| > 0 && Unrepeatable(q, r)
    requires t != [] && !(p <= t)
    ensures OccursAt(ReplaceAll(t, p, r), q, 0) ==> OccursAt(t, q, 0)
  {
    var tail := ReplaceAll(t[1..], p, r);
    var res := ReplaceAll(t, p, r);
    assert res == [t[0]] + tail;
    if OccursAt(res, q, 0) {
      assert tail[..|q| - 1] == q[1..];
      ReplacedPrefix(t[1..], p, r, q[1..]);
      assert t[..|q|] == [t[0]] + t[1..][..|q| - 1];
    }
  }

  // ---------------------------------------------------------------------------
  // What str.replace brings in and leaves behind

  /** The first position where `a` and `b` differ lies inside both. */
  predicate Apart(a: string, b: string) {
    exists k :: 0 <= k < |a| && k < |b| && a[k] != b[k]
  }

  /** Texts that part cannot extend one another. */
  lemma ApartNotPrefix(a: string, b: string, x: string)
    requires Apart(a, b)
    ensures !(a <= b + x) && !(b <= a + x)
  {
    var k :| 0 <= k < |a| && k < |b| && a[k] != b[k];
    assert (b + x)[k] == b[k] && (a + x)[k] == a[k];
  }

  lemma ApartAfter(s: string, a: string, b: string)
    requires Apart(a, b)
    ensures Apart(s + a, s + b)
  {
    var k :| 0 <= k < |a| && k < |b| && a[k] != b[k];
    assert (s + a)[|s| + k] == a[k] && (s + b)[|s| + k] == b[k];
  }

  lemma ApartExtend(a: string, b: string, x: string, y: string)
    requires Apart(a, b)
    ensures Apart(a + x, b + y)
  {
    var k :| 0 <= k < |a| && k < |b| && a[k] != b[k];
    assert (a + x)[k] == a[k] && (b + y)[k] == b[k];
  }

  /**
   * `u + x` and `l + y` part when each ending starts with a character the
   * other body lacks, and the bodies or those characters differ.
   */
  lemma EndsApart(u: string, l: string, x: string, y: string)
    requires |x| > 0 && |y| > 0 && x[0] !in l && y[0] !in u
    requires u != l || x[0] != y[0]
    ensures Apart(u + x, l + y)
  {
    if |u| == |l| && u != l {
      var k :| 0 <= k < |u| && u[k] != l[k];
      assert (u + x)[k] == u[k] && (l + y)[k] == l[k];
    } else if |u| <= |l| {
      assert (u + x)[|u|] == x[0];
      if |u| < |l| {
        assert (l + y)[|u|] == l[|u|];
      }
    } else {
      assert (l + y)[|l|] == y[0] && (u + x)[|l|] == u[|l|];
    }
  }

  /**
   * `v` reads through `ReplaceAll(_, p, r)` unchanged: wherever a replacement
   * could begin inside `v`, the rest of `v` is a prefix of both `r` and `p`,
   * and `r` never ends inside `v`.
   */
  predicate PassesThrough(v: string, p: string, r: string) {
    forall j :: 0 <= j < |v| ==> (v[j..] <= r ==> v[j..] <= p) && !(r < v[j..])
  }

  /** A text without the replacement's first character passes through. */
  lemma PassesThroughByHead(v: string, p: string, r: string)
    requires |r| > 0 && r[0] !in v
    ensures PassesThrough(v, p, r)
  {
    forall j | 0 <= j < |v|
      ensures (v[j..] <= r ==> v[j..] <= p) && !(r < v[j..])
    {
      assert v[j..][0] == v[j];
    }
  }

  /** What passes through is found at the front of the output only where it was at the front of the input. */
  lemma {:induction false} PrefixThroughReplace(t: string, p: string, r: string, v: string)
    requires |p| > 0 && |r| > 0 && PassesThrough(v, p, r)
    requires v <= ReplaceAll(t, p, r)
    ensures v <= t
    decreases |t|
  {
    if v != [] {
      var res := ReplaceAll(t, p, r);
      assert v[0..] == v;
      if p <= t {
        assert res == r + ReplaceAll(t[|p|..], p, r);
        var k := if |v| < |r| then |v| else |r|;
        assert v[..k] == res[..k] == r[..k];
        assert v <= r;
        assert v <= p;
      } else {
        var tail := ReplaceAll(t[1..], p, r);
        assert res == [t[0]] + tail;
        assert v[1..] <= tail;
        forall j | 0 <= j < |v[1..]|
          ensures (v[1..][j..] <= r ==> v[1..][j..] <= p) && !(r < v[1..][j..])
        {
          assert v[1..][j..] == v[j + 1..];
        }
        PrefixThroughReplace(t[1..], p, r, v[1..]);
        assert v == [t[0]] + v[1..];
      }
    }
  }

  /**
   * Replacing `p` by `r` brings in no occurrence of `w`: `w` passes through,
   * never lies inside `r`, and where `w` begins with a tail of `r` that tail
   * also ends `p`, so the occurrence would have been in the text already.
   */
  predicate KeepsOut(p: string, r: string, w: string) {
    && PassesThrough(w, p, r)
    && (forall i :: 0 <= i < |r| ==> !(w <= r[i..]))
    && (forall i :: 0 <= i < |r| && r[i..] < w ==> EndsWith(p, r[i..]))
  }

  /** Neither text holds the other's first character. */
  lemma KeepsOutByHead(p: string, r: string, w: string)
    requires |r| > 0 && |w| > 0 && r[0] !in w && w[0] !in r
    ensures KeepsOut(p, r, w)
  {
    PassesThroughByHead(w, p, r);
    forall i | 0 <= i < |r|
      ensures !(w <= r[i..]) && !(r[i..] < w)
    {
      assert r[i..][0] == r[i];
    }
  }

  lemma {:induction false} NoNewOccurrence(t: string, p: string, r: string, w: string)
    requires |p| > 0 && |r| > 0 && |w| > 0 && KeepsOut(p, r, w)
    requires !Contains(t, w)
    ensures !Contains(ReplaceAll(t, p, r), w)
    decreases |t|
  {
    if t == [] {
      assert !OccursAt(ReplaceAll(t, p, r), w, 0);
    } else if p <= t {
      var rest := ReplaceAll(t[|p|..], p, r);
      ContainsDrop(t, |p|, w);
      NoNewOccurrence(t[|p|..], p, r, w);
      assert ReplaceAll(t, p, r) == r + rest;
      forall i: nat | i <= |r + rest|
        ensures !OccursAt(r + rest, w, i)
      {
        NotBroughtIn(t, p, r, w, i);
      }
    } else {
      var tail := ReplaceAll(t[1..], p, r);
      ContainsDrop(t, 1, w);
      NoNewOccurrence(t[1..], p, r, w);
      assert ReplaceAll(t, p, r) == [t[0]] + tail;
      assert !OccursAt(t, w, 0);
      if w <= [t[0]] + tail {
        PrefixThroughReplace(t, p, r, w);
      }
      NoOccurrenceAfterChar(t[0], tail, w);
    }
  }

  /** Case of `NoNewOccurrence` where the text starts with a replacement. */
  lemma NotBroughtIn(t: string, p: string, r: string, w: string, i: nat)
    requires |p| > 0 && |r| > 0 && |w| > 0 && KeepsOut(p, r, w)
    requires p <= t && !Contains(t, w) && !Contains(ReplaceAll(t[|p|..], p, r), w)
    ensures !OccursAt(r + ReplaceAll(t[|p|..], p, r), w, i)
  {
    var rest := ReplaceAll(t[|p|..], p, r);
    var res := r + rest;
    if i >= |r| {
      if i + |w| <= |res| {
        SliceRight(r, rest, i, i + |w|);
        assert !OccursAt(rest, w, i - |r|);
      }
    } else if i + |w| <= |r| {
      assert res[i..i + |w|] == r[i..][..|w|];
    } else if OccursAt(res, w, i) {
      StraddleFound(t, p, r, w, i);
    }
  }

  /** An occurrence that starts inside a leading replacement and runs past it was in the text. */
  lemma StraddleFound(t: string, p: string, r: string, w: string, i: nat)
    requires |p| > 0 && |r| > 0 && KeepsOut(p, r, w) && p <= t
    requires i < |r| < i + |w| && OccursAt(r + ReplaceAll(t[|p|..], p, r), w, i)
    ensures Contains(t, w)
  {
    var rest := ReplaceAll(t[|p|..], p, r);
    var res := r + rest;
    var m := |r| - i;
    assert w[..m] == res[i..|r|] == r[i..];
    assert r[i..] < w;
    var s := w[m..];
    assert s == res[|r|..i + |w|] == rest[..|s|];
    forall j | 0 <= j < |s|
      ensures (s[j..] <= r ==> s[j..] <= p) && !(r < s[j..])
    {
      assert s[j..] == w[m + j..];
    }
    PrefixThroughReplace(t[|p|..], p, r, s);
    assert w == p[|p| - m..] + s;
    JoinedAt(t, p, s, m);
  }

  /** A tail of `p` at the front of `t`, followed by `s` in what follows `p`. */
  lemma JoinedAt(t: string, p: string, s: string, m: nat)
    requires p <= t && s <= t[|p|..] && m <= |p|
    ensures OccursAt(t, p[|p| - m..] + s, |p| - m)
  {
    var at := |p| - m;
    assert t[at..|p|] == p[at..];
    assert t[|p|..|p| + |s|] == s;
    assert t[at..at + m + |s|] == t[at..|p|] + t[|p|..|p| + |s|];
  }

  /**
   * Replacing the delimited text `d + u + d` by `d + l + d` leaves none of it
   * behind, when `d` starts with a character found nowhere else in either and
   * the text never holds two delimited copies of `u` that share a delimiter.
   */
  lemma {:induction false} DelimitedNoneLeft(t: string, d: string, u: string, l: string)
    requires |d| > 0 && d[0] !in d[1..] && d[0] !in u && d[0] !in l && u != l
    requires !Contains(t, d + u + d + u + d)
    ensures !Contains(ReplaceAll(t, d + u + d, d + l + d), d + u + d)
    decreases |t|
  {
    var q, r := d + u + d, d + l + d;
    if t == [] {
      assert !OccursAt(ReplaceAll(t, q, r), q, 0);
    } else if q <= t {
      var rest := ReplaceAll(t[|q|..], q, r);
      ContainsDrop(t, |q|, q + u + d);
      DelimitedNoneLeft(t[|q|..], d, u, l);
      assert ReplaceAll(t, q, r) == r + rest;
      forall i: nat | i <= |r + rest|
        ensures !OccursAt(r + rest, q, i)
      {
        DelimitedNotAt(t, d, u, l, i);
      }
    } else {
      var tail := ReplaceAll(t[1..], q, r);
      ContainsDrop(t, 1, q + u + d);
      DelimitedNoneLeft(t[1..], d, u, l);
      assert ReplaceAll(t, q, r) == [t[0]] + tail;
      DelimitedPasses(d, u, l);
      if q <= [t[0]] + tail {
        PrefixThroughReplace(t, q, r, q);
      }
      NoOccurrenceAfterChar(t[0], tail, q);
    }
  }

  /** Both `d + u + d` and `u + d` pass through the replacement of `d + u + d` by `d + l + d`. */
  lemma DelimitedPasses(d: string, u: string, l: string)
    requires |d| > 0 && d[0] !in d[1..] && d[0] !in u && d[0] !in l && u != l
    ensures PassesThrough(d + u + d, d + u + d, d + l + d)
    ensures PassesThrough(u + d, d + u + d, d + l + d)
  {
    var q, r := d + u + d, d + l + d;
    EndsApart(u, l, d, d);
    ApartAfter(d, u + d, l + d);
    assert q == d + (u + d) && r == d + (l + d);
    ApartNotPrefix(q, r, []);
    assert q + [] == q && r + [] == r;
    forall j | 0 <= j < |q|
      ensures (q[j..] <= r ==> q[j..] <= q) && !(r < q[j..])
    {
      if j == |d| + |u| {
        assert q[j..] == d;
      } else if j > 0 {
        assert q[j..][0] == q[j];
        if j < |d| {
          assert q[j] == d[1..][j - 1];
        } else if j > |d| + |u| {
          assert q[j] == d[1..][j - |d| - |u| - 1];
        }
      }
    }
    forall j | 0 <= j < |u + d|
      ensures ((u + d)[j..] <= r ==> (u + d)[j..] <= q) && !(r < (u + d)[j..])
    {
      assert (u + d)[j..] == q[|d| + j..];
    }
  }

  /** Case of `DelimitedNoneLeft` where the text starts with a replacement. */
  lemma DelimitedNotAt(t: string, d: string, u: string, l: string, i: nat)
    requires |d| > 0 && d[0] !in d[1..] && d[0] !in u && d[0] !in l && u != l
    requires d + u + d <= t && !Contains(t, d + u + d + u + d)
    requires !Contains(ReplaceAll(t[|d + u + d|..], d + u + d, d + l + d), d + u + d)
    ensures !OccursAt(d + l + d + ReplaceAll(t[|d + u + d|..], d + u + d, d + l + d), d + u + d, i)
  {
    var q, r := d + u + d, d + l + d;
    var rest := ReplaceAll(t[|q|..], q, r);
    var res := r + rest;
    if i >= |r| {
      if i + |q| <= |res| {
        SliceRight(r, rest, i, i + |q|);
        assert !OccursAt(rest, q, i - |r|);
      }
    } else if i == 0 {
      EndsApart(u, l, d, d);
      ApartAfter(d, u + d, l + d);
      assert q == d + (u + d) && r == d + (l + d);
      ApartNotPrefix(q, r, rest);
    } else if i == |d| + |l| {
      if OccursAt(res, q, i) {
        // the text would hold `d + u + d + u + d` at its front
        assert q + (u + d) == q + u + d;
        ClosingOccurrence(d, l, rest, u);
        DelimitedFollow(t[|q|..], d, u, l);
        FollowedAt(t, q, u + d);
      }
    } else if i + |q| <= |res| {
      DelimiterOnlyAtEnds(d, l, i);
      assert res[i] == r[i] && q[0] == d[0];
    }
  }

  /** Inside `d + l + d`, the delimiter's first character stands only at the two ends. */
  lemma DelimiterOnlyAtEnds(d: string, l: string, i: nat)
    requires |d| > 0 && d[0] !in d[1..] && d[0] !in l
    requires 0 < i < |d + l + d| && i != |d| + |l|
    ensures (d + l + d)[i] != d[0]
  {
    var r := d + l + d;
    if i < |d| {
      assert r[i] == d[1..][i - 1];
    } else if i < |d| + |l| {
      assert r[i] == l[i - |d|];
    } else {
      assert r[i] == d[1..][i - |d| - |l| - 1];
    }
  }

  /** An occurrence of `d + u + d` on the closing `d` of `d + l + d` is followed by `u + d`. */
  lemma ClosingOccurrence(d: string, l: string, rest: string, u: string)
    requires OccursAt(d + l + d + rest, d + u + d, |d| + |l|)
    ensures u + d <= rest
  {
    var res, q, i := d + l + d + rest, d + u + d, |d| + |l|;
    assert res == (d + l) + (d + rest);
    assert res[i..i + |q|] == (d + rest)[..|q|];
    assert u + d == q[|d|..] == rest[..|u + d|];
  }

  /** A text that starts with a part of `r` parts from `r` as well. */
  lemma ApartPrefixOf(a: string, v: string, r: string)
    requires Apart(a, r) && a <= v
    ensures Apart(v, r)
  {
    var k :| 0 <= k < |a| && k < |r| && a[k] != r[k];
    assert v[k] == a[k];
  }

  /**
   * Replacing the quoted `c + u + c` by `c + l + c` brings in no escaped
   * `b c u b c u b c` (as `\"u\"u\"` is to `"u"`).
   */
  lemma QuotedKeepsEscapedOut(b: char, c: char, u: string, l: string)
    requires b != c && b !in u && c !in u && b !in l && c !in l
    ensures KeepsOut([c] + u + [c], [c] + l + [c], [b, c] + u + [b, c] + u + [b, c])
  {
    EscapedPassesQuoted(b, c, u, l);
    var r, w := [c] + l + [c], [b, c] + u + [b, c] + u + [b, c];
    forall i | 0 <= i < |r|
      ensures !(w <= r[i..]) && !(r[i..] < w)
    {
      assert r[i..][0] == r[i];
    }
  }

  /** The escaped `b c u b c u b c` passes through replacing `c u c` by `c l c`. */
  lemma EscapedPassesQuoted(b: char, c: char, u: string, l: string)
    requires b != c && b !in u && c !in u && b !in l && c !in l
    ensures PassesThrough([b, c] + u + [b, c] + u + [b, c], [c] + u + [c], [c] + l + [c])
  {
    var p, r := [c] + u + [c], [c] + l + [c];
    var e := [b, c] + u;
    var w := [b, c] + u + [b, c] + u + [b, c];
    assert w == e + e + [b, c];
    EndsApart(u, l, [b], [c]);
    ApartAfter([c], u + [b], l + [c]);
    assert [c] + (u + [b]) == [c] + u + [b] && [c] + (l + [c]) == r;
    forall j | 0 <= j < |w|
      ensures (w[j..] <= r ==> w[j..] <= p) && !(r < w[j..])
    {
      if j == 1 || j == |e| + 1 {
        assert w[j..][..|u| + 2] == [c] + u + [b];
        ApartPrefixOf([c] + u + [b], w[j..], r);
        ApartNotPrefix(w[j..], r, []);
        assert w[j..] + [] == w[j..] && r + [] == r;
      } else if j == |w| - 1 {
        assert w[j..] == [c];
      } else {
        assert w[j..][0] == w[j];
        if j < |e| {
          assert w[j] == e[j];
        } else if j < 2 * |e| {
          assert w[j] == e[j - |e|];
        }
      }
    }
  }

  /**
   * Replacing the escaped `b c u b c` by `b c l b c` brings in no quoted
   * `c u c` (as `\"u\"` is to `"u"`).
   */
  lemma EscapedKeepsQuotedOut(b: char, c: char, u: string, l: string)
    requires b != c && b !in u && c !in u && b !in l && c !in l
    ensures KeepsOut([b, c] + u + [b, c], [b, c] + l + [b, c], [c] + u + [c])
  {
    var p, r, w := [b, c] + u + [b, c], [b, c] + l + [b, c], [c] + u + [c];
    PassesThroughByHead(w, p, r);
    forall i | 0 <= i < |r|
      ensures !(w <= r[i..]) && (r[i..] < w ==> EndsWith(p, r[i..]))
    {
      if i == 1 {
        assert r[1..] == [c] + (l + [b, c]);
        EndsApart(u, l, [c], [b, c]);
        ApartAfter([c], u + [c], l + [b, c]);
        assert [c] + (u + [c]) == w;
        ApartNotPrefix(w, r[1..], []);
        assert w + [] == w && r[1..] + [] == r[1..];
      } else if i == |r| - 1 {
        assert r[i..] == [c];
        assert p[|p| - 1..] == [c];
      } else {
        assert r[i..][0] == r[i];
        if 1 < i < |r| - 2 {
          assert r[i] == l[i - 2];
        }
      }
    }
  }

  /** `u + d` at the front of the output of replacing `d + u + d` by `d + l + d` was at the front of the input. */
  lemma DelimitedFollow(t: string, d: string, u: string, l: string)
    requires |d| > 0 && d[0] !in d[1..] && d[0] !in u && d[0] !in l && u != l
    ensures u + d <= ReplaceAll(t, d + u + d, d + l + d) ==> u + d <= t
  {
    DelimitedPasses(d, u, l);
    if u + d <= ReplaceAll(t, d + u + d, d + l + d) {
      PrefixThroughReplace(t, d + u + d, d + l + d, u + d);
    }
  }

  /** `a` at the front of `t` followed by `b` is `a + b` at the front of `t`. */
  lemma FollowedAt(t: string, a: string, b: string)
    requires a <= t && b <= t[|a|..]
    ensures OccursAt(t, a + b, 0)
  {
    assert t[..|a| + |b|] == t[..|a|] + t[|a|..][..|b|];
  }

  /** A character in neither the text nor the replacement is not in the result. */
  lemma {:induction false} ReplaceKeepsCharOut(s: string, p: string, r: string, c: char)
    requires |p| > 0 && c !in s && c !in r
    ensures c !in ReplaceAll(s, p, r)
    decreases |s|
  {
    if s != [] {
      if p <= s {
        ReplaceKeepsCharOut(s[|p|..], p, r, c);
      } else {
        ReplaceKeepsCharOut(s[1..], p, r, c);
      }
    }
  }

  /** Replacing a character by a text without it removes it. */
  lemma {:induction false} ReplaceRemovesChar(s: string, c: char, r: string)
    requires c !in r
    ensures c !in ReplaceAll(s, [c], r)
    decreases |s|
  {
    if s != [] {
      if [c] <= s {
        ReplaceRemovesChar(s[1..], c, r);
      } else {
        assert s[0] != c;
        ReplaceRemovesChar(s[1..], c, r);
      }
    }
  }

  // ---------------------------------------------------------------------------
  // Characters, slicing, joining

  /** Python's `s.replace(c, '')` for a single character. */
  function RemoveChar(s: string, c: char): (res: string)
    ensures |res| <= |s|
  {
    if s == [] then []
    else if s[0] == c then RemoveChar(s[1..], c)
    else [s[0]] + RemoveChar(s[1..], c)
  }

  /** Removing `c` leaves no `c` and keeps exactly the other characters. */
  lemma {:induction false} RemoveCharSpec(s: string, c: char, d: char)
    ensures c !in RemoveChar(s, c)
    ensures d != c ==> (d in RemoveChar(s, c) <==> d in s)
  {
    if s != [] {
      RemoveCharSpec(s[1..], c, d);
    }
  }

  /** `s[:n]`: at most the first `n` characters. */
  function Take(s: string, n: nat): (res: string)
    ensures |res| <= n && res <= s
    ensures |s| <= n ==> res == s
  {
    if |s| <= n then s else s[..n]
  }

  /** `sep.join(parts)`. */
  function Join(sep: string, parts: seq<string>): string
  {
    if parts == [] then []
    else if |parts| == 1 then parts[0]
    else parts[0] + sep + Join(sep, parts[1..])
  }

  /** `text.split(sep)[k]` for a one-character separator; empty when there are fewer fields. */
  function Field(text: string, sep: char, k: nat): (res: string)
    decreases |text|
  {
    if k == 0 then
      (if sep in text then text[..FirstIndex(text, sep)] else text)
    else if sep in text then Field(text[FirstIndex(text, sep) + 1..], sep, k - 1)
    else []
  }

  /** The first field of `a`, the separator and `b` is `a` when `a` holds no separator. */
  lemma FieldBeforeSeparator(a: string, sep: char, b: string)
    requires sep !in a
    ensures Field(a + [sep] + b, sep, 0) == a
  {
    var t := a + [sep] + b;
    assert t[|a|] == sep;
    var i := FirstIndex(t, sep);
    assert forall j :: 0 <= j < |a| ==> t[j] == a[j];
    assert i == |a|;
    assert t[..i] == a;
  }

  lemma FieldAfterSeparator(a: string, sep: char, b: string)
    requires sep !in a && sep !in b
    ensures Field(a + [sep] + b, sep, 1) == b
  {
    var t := a + [sep] + b;
    assert t[|a|] == sep;
    var i := FirstIndex(t, sep);
    assert forall j :: 0 <= j < |a| ==> t[j] == a[j];
    assert i == |a|;
    assert t[i + 1..] == b;
  }

  function FirstIndex(s: string, c: char): (i: nat)
    requires c in s
    ensures i < |s| && s[i] == c && c !in s[..i]
  {
    if s[0] == c then 0 else 1 + FirstIndex(s[1..], c)
  }

  /**
   * Python's `str.isspace`: the ASCII controls `\t` to `\r` and `\x1c` to
   * `\x1f`, the space, and the Unicode separators (`\x85`, `\xa0`, `\u1680`,
   * `\u2000` to `\u200a`, `\u2028`, `\u2029`, `\u202f`, `\u205f`, `\u3000`).
   */
  predicate IsWhitespace(c: char) {
    9 <= c as int <= 13 || 0x1c <= c as int <= 0x20 || c as int == 0x85 || c as int == 0xa0
    || c as int == 0x1680 || 0x2000 <= c as int <= 0x200a || c as int == 0x2028 || c as int == 0x2029
    || c as int == 0x202f || c as int == 0x205f || c as int == 0x3000
  }

  /** `s.rstrip(c)`: drop every trailing `c`. */
  function RStrip(s: string, c: char): (res: string)
    ensures res <= s
    ensures res == [] || res[|res| - 1] != c
    ensures forall j :: |res| <= j < |s| ==> s[j] == c
  {
    if s == [] || s[|s| - 1] != c then s else RStrip(s[..|s| - 1], c)
  }

  /** `s.strip()`: drop leading and trailing whitespace. */
  function Strip(s: string): (res: string)
    ensures |res| <= |s|
    ensures res != [] ==> !IsWhitespace(res[0]) && !IsWhitespace(res[|res| - 1])
    decreases |s|
  {
    if s == [] then []
    else if IsWhitespace(s[0]) then Strip(s[1..])
    else if IsWhitespace(s[|s| - 1]) then Strip(s[..|s| - 1])
    else s
  }

  // ---------------------------------------------------------------------------
  // Digits and numbers

  predicate IsDigit(c: char) { '0' <= c <= '9' }

  predicate IsHexDigit(c: char) {
    IsDigit(c) || 'a' <= c <= 'f' || 'A' <= c <= 'F'
  }

  /** `s.isdigit()` over ASCII digits. */
  predicate IsDigits(s: string) {
    |s| > 0 && forall j :: 0 <= j < |s| ==> IsDigit(s[j])
  }

  /** `int(s)` of a string of decimal digits. */
  function DigitsValue(s: string): (n: nat)
    requires forall j :: 0 <= j < |s| ==> IsDigit(s[j])
  {
    if s == [] then 0
    else
      var last := s[|s| - 1];
      assert IsDigit(last);
      10 * DigitsValue(s[..|s| - 1]) + (last as int - '0' as int)
  }

  function DigitChar(d: nat): (c: char)
    requires d < 10
    ensures IsDigit(c)
  {
    ('0' as int + d) as char
  }

  /** `str(n)` for a natural number. */
  function NatToString(n: nat): (s: string)
    ensures forall j :: 0 <= j < |s| ==> IsDigit(s[j])
    ensures IsDigits(s)
  {
    if n < 10 then [DigitChar(n)] else NatToString(n / 10) + [DigitChar(n % 10)]
  }

  /** `int(str(n)) == n`. */
  lemma {:induction false} NatToStringRoundTrip(n: nat)
    ensures DigitsValue(NatToString(n)) == n
  {
    if n >= 10 {
      var s := NatToString(n);
      assert s[..|s| - 1] == NatToString(n / 10);
      NatToStringRoundTrip(n / 10);
    }
  }

  /** `str(i)` for any Python integer. */
  function IntToString(i: int): (s: string)
    ensures |s| > 0
  {
    if i < 0 then "-" + NatToString(-i) else NatToString(i)
  }

  // ---------------------------------------------------------------------------
  // Code-point ordering of strings (Python's `<` on `str`)

  predicate Less(a: string, b: string)
    decreases |a|
  {
    if a == [] then b != []
    else if b == [] then false
    else if a[0] != b[0] then a[0] < b[0]
    else Less(a[1..], b[1..])
  }

  /** `a <= b` on strings. */
  predicate LessEq(a: string, b: string) { !Less(b, a) }

  lemma {:induction false} LessIrreflexive(a: string)
    ensures !Less(a, a)
  {
    if a != [] { LessIrreflexive(a[1..]); }
  }

  lemma {:induction false} LessTotal(a: string, b: string)
    ensures a == b || Less(a, b) || Less(b, a)
    ensures !(Less(a, b) && Less(b, a))
  {
    if a != [] && b != [] && a[0] == b[0] {
      LessTotal(a[1..], b[1..]);
      if a[1..] == b[1..] {
        assert a == [a[0]] + a[1..] && b == [b[0]] + b[1..];
      }
    }
  }

  lemma {:induction false} LessTransitive(a: string, b: string, c: string)
    requires Less(a, b) && Less(b, c)
    ensures Less(a, c)
  {
    if a != [] && a[0] == b[0] && b[0] == c[0] {
      LessTransitive(a[1..], b[1..], c[1..]);
    }
  }

  lemma LessEqTransitive(a: string, b: string, c: string)
    requires LessEq(a, b) && LessEq(b, c)
    ensures LessEq(a, c)
  {
    if Less(c, a) {
      LessTotal(a, b);
      LessTotal(b, c);
      if a == b {
      } else if b == c {
      } else {
        LessTransitive(a, b, c);
        LessTotal(a, c);
      }
    }
  }

  /** A prefix sorts no later than the string it begins. */
  lemma {:induction false} PrefixLessEq(p: string, s: string)
    requires p <= s
    ensures LessEq(p, s)
  {
    if p != [] {
      PrefixLessEq(p[1..], s[1..]);
    }
  }

  /**
   * Anything sorted between `p` and a string that `p` begins also begins
   * with `p`: the strings that start with `p` form a contiguous block of the
   * sorted order, starting at the first string not less than `p`.
   */
  lemma {:induction false} PrefixBetween(p: string, x: string, n: string)
    requires p <= n && LessEq(p, x) && LessEq(x, n)
    ensures p <= x
  {
    if p != [] {
      assert x != [];
      assert x[0] == p[0];
      PrefixBetween(p[1..], x[1..], n[1..]);
      assert x[..|p|] == [x[0]] + x[1..][..|p| - 1];
    }
  }

  /** Strings sorted in non-decreasing code-point order. */
  predicate Sorted(a: seq<string>) {
    forall i, j :: 0 <= i < j < |a| ==> LessEq(a[i], a[j])
  }
}
