/** Generic sequence operations. The heart is `DedupBy`, the loop every part
    of the pipeline repeats: walk a list once, skip items that fail a test or
    whose key was already emitted, keep the rest in order. */
module Seqs {
  import opened Wrappers

  /** `a` can be obtained from `b` by deleting elements. */
  predicate IsSubseq<T(==)>(a: seq<T>, b: seq<T>)
    decreases |b|
  {
    || |a| == 0
    || (&& |b| > 0
        && (|| (a[|a| - 1] == b[|b| - 1] && IsSubseq(a[..|a| - 1], b[..|b| - 1]))
            || IsSubseq(a, b[..|b| - 1])))
  }

  function Map<A, B>(f: A -> B, xs: seq<A>): (r: seq<B>)
    ensures |r| == |xs|
    ensures forall i :: 0 <= i < |xs| ==> r[i] == f(xs[i])
  {
    seq(|xs|, i requires 0 <= i < |xs| => f(xs[i]))
  }

  lemma MapAppend<A, B>(f: A -> B, xs: seq<A>, ys: seq<A>)
    ensures Map(f, xs + ys) == Map(f, xs) + Map(f, ys)
  {
  }

  lemma MapPair<A, B>(f: A -> B, x: A, y: A)
    ensures Map(f, [x, y]) == [f(x), f(y)]
  {
  }

  lemma MapPrefix<A, B>(f: A -> B, xs: seq<A>, n: nat)
    requires n <= |xs|
    ensures Map(f, xs)[..n] == Map(f, xs[..n])
  {
  }

  /** The results of `f` on every element, concatenated in order. */
  function FlatMap<A, B>(f: A -> seq<B>, xs: seq<A>): seq<B>
    decreases |xs|
  {
    if |xs| == 0 then [] else FlatMap(f, xs[..|xs| - 1]) + f(xs[|xs| - 1])
  }

  /** A property every piece has holds of the whole concatenation. */
  lemma {:induction false} FlatMapAll<A, B>(f: A -> seq<B>, xs: seq<A>, P: B -> bool)
    requires forall i, j :: 0 <= i < |xs| && 0 <= j < |f(xs[i])| ==> P(f(xs[i])[j])
    ensures forall k :: 0 <= k < |FlatMap(f, xs)| ==> P(FlatMap(f, xs)[k])
    decreases |xs|
  {
    if |xs| > 0 {
      var init := xs[..|xs| - 1];
      assert forall i :: 0 <= i < |init| ==> init[i] == xs[i];
      FlatMapAll(f, init, P);
      var a := FlatMap(f, init);
      var b := f(xs[|xs| - 1]);
      forall k | 0 <= k < |a + b| ensures P((a + b)[k]) {
        if k >= |a| {
          assert (a + b)[k] == b[k - |a|];
        }
      }
    }
  }

  /** Every element of every piece is in the concatenation. */
  lemma {:induction false} FlatMapMember<A, B>(f: A -> seq<B>, xs: seq<A>, i: nat, j: nat)
    requires i < |xs| && j < |f(xs[i])|
    ensures f(xs[i])[j] in FlatMap(f, xs)
    decreases |xs|
  {
    var init := xs[..|xs| - 1];
    var a := FlatMap(f, init);
    if i < |xs| - 1 {
      assert init[i] == xs[i];
      FlatMapMember(f, init, i, j);
      assert FlatMap(f, xs) == a + f(xs[|xs| - 1]);
    } else {
      assert FlatMap(f, xs) == a + f(xs[i]);
      assert (a + f(xs[i]))[|a| + j] == f(xs[i])[j];
    }
  }

  /** Peeling the first element off a concatenation. */
  lemma {:induction false} FlatMapCons<A, B>(f: A -> seq<B>, x: A, xs: seq<A>)
    ensures FlatMap(f, [x] + xs) == f(x) + FlatMap(f, xs)
    decreases |xs|
  {
    if |xs| > 0 {
      var init := xs[..|xs| - 1];
      assert ([x] + xs)[..|xs|] == [x] + init;
      FlatMapCons(f, x, init);
    }
  }

  /** Functions that agree on every element give the same concatenation. */
  lemma {:induction false} FlatMapAgree<A, B>(f: A -> seq<B>, g: A -> seq<B>, xs: seq<A>)
    requires forall i :: 0 <= i < |xs| ==> f(xs[i]) == g(xs[i])
    ensures FlatMap(f, xs) == FlatMap(g, xs)
    decreases |xs|
  {
    if |xs| > 0 {
      var init := xs[..|xs| - 1];
      assert forall i :: 0 <= i < |init| ==> init[i] == xs[i];
      FlatMapAgree(f, g, init);
    }
  }

  /** Pieces that are all empty concatenate to nothing. */
  lemma {:induction false} FlatMapNone<A, B>(f: A -> seq<B>, xs: seq<A>)
    requires forall i :: 0 <= i < |xs| ==> f(xs[i]) == []
    ensures FlatMap(f, xs) == []
    decreases |xs|
  {
    if |xs| > 0 {
      var init := xs[..|xs| - 1];
      assert forall i :: 0 <= i < |init| ==> init[i] == xs[i];
      FlatMapNone(f, init);
    }
  }

  /** Apply `f` to every element and keep the `Some` results, in order: the
      shape of every "convert, skipping what does not fit" loop. */
  function Choose<A, B>(f: A -> Option<B>, xs: seq<A>): (r: seq<B>)
    ensures |r| <= |xs|
    decreases |xs|
  {
    if |xs| == 0 then []
    else
      var r0 := Choose(f, xs[..|xs| - 1]);
      match f(xs[|xs| - 1])
      case None => r0
      case Some(v) => r0 + [v]
  }

  /** The results keep the order of their inputs: wrapped back in `Some`,
      they are a subsequence of the converted inputs. */
  lemma {:induction false} ChooseSubseq<A, B>(f: A -> Option<B>, xs: seq<A>)
    ensures IsSubseq(Map(Wrap, Choose(f, xs)), Map(f, xs))
    decreases |xs|
  {
    if |xs| > 0 {
      var init := xs[..|xs| - 1];
      var r0 := Choose(f, init);
      ChooseSubseq(f, init);
      assert Map(f, xs)[..|xs| - 1] == Map(f, init);
      match f(xs[|xs| - 1])
      case None =>
      case Some(v) =>
        var r := r0 + [v];
        assert Map(Wrap, r)[..|r| - 1] == Map(Wrap, r0);
    }
  }

  /** Every result is the conversion of some input, and every input that
      converts contributes its result. */
  lemma {:induction false} ChooseMembers<A, B>(f: A -> Option<B>, xs: seq<A>)
    ensures forall i :: 0 <= i < |xs| && f(xs[i]).Some? ==> f(xs[i]).value in Choose(f, xs)
    ensures forall y :: y in Choose(f, xs) ==> exists i :: 0 <= i < |xs| && f(xs[i]) == Some(y)
    decreases |xs|
  {
    if |xs| > 0 {
      var init := xs[..|xs| - 1];
      ChooseMembers(f, init);
      assert forall i :: 0 <= i < |init| ==> init[i] == xs[i];
    }
  }

  /** A property every conversion has holds of every result. */
  lemma ChoosePreserves<A, B>(f: A -> Option<B>, xs: seq<A>, P: B -> bool)
    requires forall i :: 0 <= i < |xs| && f(xs[i]).Some? ==> P(f(xs[i]).value)
    ensures forall k :: 0 <= k < |Choose(f, xs)| ==> P(Choose(f, xs)[k])
  {
    ChooseMembers(f, xs);
    forall k | 0 <= k < |Choose(f, xs)| ensures P(Choose(f, xs)[k]) {
      var i :| 0 <= i < |xs| && f(xs[i]) == Some(Choose(f, xs)[k]);
    }
  }

  /** When nothing is skipped, `Choose` converts element by element. */
  lemma {:induction false} ChooseTotal<A, B>(f: A -> Option<B>, xs: seq<A>)
    requires forall i :: 0 <= i < |xs| ==> f(xs[i]).Some?
    ensures |Choose(f, xs)| == |xs|
    ensures forall i :: 0 <= i < |xs| ==> Choose(f, xs)[i] == f(xs[i]).value
    decreases |xs|
  {
    if |xs| > 0 {
      var init := xs[..|xs| - 1];
      assert forall i :: 0 <= i < |init| ==> init[i] == xs[i];
      ChooseTotal(f, init);
    }
  }

  /** Converting a concatenation converts each part. */
  lemma {:induction false} ChooseAppend<A, B>(f: A -> Option<B>, xs: seq<A>, ys: seq<A>)
    ensures Choose(f, xs + ys) == Choose(f, xs) + Choose(f, ys)
    decreases |ys|
  {
    if |ys| == 0 {
      assert xs + ys == xs;
    } else {
      var ys0 := ys[..|ys| - 1];
      var y := ys[|ys| - 1];
      ChooseAppend(f, xs, ys0);
      assert (xs + ys)[..|xs + ys| - 1] == xs + ys0;
      assert (xs + ys)[|xs + ys| - 1] == y;
      var a := Choose(f, xs);
      var b := Choose(f, ys0);
      match f(y)
      case None =>
        assert Choose(f, ys) == b;
        assert Choose(f, xs + ys) == Choose(f, xs + ys0);
      case Some(v) =>
        assert Choose(f, ys) == b + [v];
        assert Choose(f, xs + ys) == Choose(f, xs + ys0) + [v];
        assert (a + b) + [v] == a + (b + [v]);
    }
  }

  function Filter<T>(p: T -> bool, xs: seq<T>): (r: seq<T>)
    ensures |r| <= |xs|
    decreases |xs|
  {
    if |xs| == 0 then []
    else (if p(xs[0]) then [xs[0]] else []) + Filter(p, xs[1..])
  }

  /** No two elements share a key. */
  predicate KeysDistinct<T, K(==)>(xs: seq<T>, key: T -> K) {
    forall i, j :: 0 <= i < j < |xs| ==> key(xs[i]) != key(xs[j])
  }

  /** An element whose key no later element has may go in front. */
  lemma KeysDistinctCons<T, K>(h: T, t: seq<T>, key: T -> K)
    requires KeysDistinct(t, key)
    requires forall i :: 0 <= i < |t| ==> key(t[i]) != key(h)
    ensures KeysDistinct([h] + t, key)
  {
    var u := [h] + t;
    forall i, j | 0 <= i < j < |u| ensures key(u[i]) != key(u[j]) {
      assert u[j] == t[j - 1];
      if i > 0 {
        assert u[i] == t[i - 1];
      }
    }
  }

  function KeysOf<T, K(==)>(xs: seq<T>, key: T -> K): set<K> {
    set i | 0 <= i < |xs| :: key(xs[i])
  }

  /** Keys read through a mapping are the keys of the originals. */
  lemma KeysOfMap<A, B, K>(f: A -> B, xs: seq<A>, key: B -> K, key2: A -> K)
    requires forall i :: 0 <= i < |xs| ==> key(f(xs[i])) == key2(xs[i])
    ensures KeysOf(Map(f, xs), key) == KeysOf(xs, key2)
  {
    var ys := Map(f, xs);
    forall k | k in KeysOf(ys, key) ensures k in KeysOf(xs, key2) {
      var i :| 0 <= i < |ys| && key(ys[i]) == k;
    }
    forall k | k in KeysOf(xs, key2) ensures k in KeysOf(ys, key) {
      var i :| 0 <= i < |xs| && key2(xs[i]) == k;
      assert key(ys[i]) == k;
    }
  }

  /** The keys of the acceptable elements of `xs`. */
  function OkKeys<T, K(==)>(xs: seq<T>, key: T -> K, ok: T -> bool): set<K> {
    set i | 0 <= i < |xs| && ok(xs[i]) :: key(xs[i])
  }

  /** One pass with a `seen` set: an element is emitted when it passes `ok` and
      its key has not been emitted before. The first acceptable occurrence of
      every key wins. */
  function DedupBy<T(==), K(==)>(xs: seq<T>, key: T -> K, ok: T -> bool): (r: seq<T>)
    ensures |r| <= |xs|
    ensures forall i :: 0 <= i < |r| ==> ok(r[i]) && r[i] in xs
    ensures KeysDistinct(r, key)
    ensures KeysOf(r, key) == OkKeys(xs, key, ok)
    decreases |xs|
  {
    if |xs| == 0 then []
    else
      var init := xs[..|xs| - 1];
      var x := xs[|xs| - 1];
      var r0 := DedupBy(init, key, ok);
      assert OkKeys(xs, key, ok) == OkKeys(init, key, ok) + (if ok(x) then {key(x)} else {}) by {
        assert forall i :: 0 <= i < |init| ==> xs[i] == init[i];
      }
      if ok(x) && key(x) !in KeysOf(r0, key) then
        var r := r0 + [x];
        assert KeysOf(r, key) == KeysOf(r0, key) + {key(x)} by {
          assert forall i :: 0 <= i < |r0| ==> r[i] == r0[i];
          assert r[|r0|] == x;
        }
        assert KeysDistinct(r, key) by {
          forall i, j | 0 <= i < j < |r| ensures key(r[i]) != key(r[j]) {
            if j == |r0| {
              assert r[i] == r0[i];
              assert key(r0[i]) in KeysOf(r0, key);
            } else {
              assert r[i] == r0[i] && r[j] == r0[j];
            }
          }
        }
        r
      else
        r0
  }

  /** The output keeps the input order. */
  lemma {:induction false} DedupBySubseq<T, K>(xs: seq<T>, key: T -> K, ok: T -> bool)
    ensures IsSubseq(DedupBy(xs, key, ok), xs)
    decreases |xs|
  {
    if |xs| > 0 {
      var init := xs[..|xs| - 1];
      var r0 := DedupBy(init, key, ok);
      DedupBySubseq(init, key, ok);
      var r := DedupBy(xs, key, ok);
      if r != r0 {
        assert r == r0 + [xs[|xs| - 1]];
        assert r[..|r| - 1] == r0;
      }
    }
  }

  /** `DedupBy` as the imperative loop the source writes, with a `seen` set;
      its invariants relate the loop to the reference `Firsts` directly. */
  method DedupLoop<T(==), K(==)>(xs: seq<T>, key: T -> K, ok: T -> bool) returns (out: seq<T>)
    ensures out == DedupBy(xs, key, ok)
  {
    var seen: set<K> := {};
    out := [];
    var i := 0;
    while i < |xs|
      invariant 0 <= i <= |xs|
      invariant out == Firsts(xs[..i], key, ok)
      invariant seen == OkKeys(xs[..i], key, ok)
    {
      var x := xs[i];
      FirstsStep(xs, i, key, ok);
      if ok(x) && key(x) !in seen {
        out := out + [x];
        seen := seen + {key(x)};
      }
      i := i + 1;
    }
    assert xs[..i] == xs;
    DedupByIsFirsts(xs, key, ok);
  }

  /** One more element: it is a first occurrence exactly when it passes and
      its key is not among the keys of the acceptable elements before it. */
  lemma FirstsStep<T, K>(xs: seq<T>, i: nat, key: T -> K, ok: T -> bool)
    requires i < |xs|
    ensures Firsts(xs[..i + 1], key, ok)
            == Firsts(xs[..i], key, ok) + if ok(xs[i]) && key(xs[i]) !in OkKeys(xs[..i], key, ok) then [xs[i]] else []
    ensures OkKeys(xs[..i + 1], key, ok) == OkKeys(xs[..i], key, ok) + if ok(xs[i]) then {key(xs[i])} else {}
  {
    var p := xs[..i + 1];
    assert p[..i] == xs[..i];
    assert p[i] == xs[i];
    assert forall k :: 0 <= k < i ==> p[k] == xs[..i][k];
    assert IsFirst(p, i, key, ok) <==> ok(xs[i]) && key(xs[i]) !in OkKeys(xs[..i], key, ok) by {
      if ok(xs[i]) && key(xs[i]) in OkKeys(xs[..i], key, ok) {
        var k :| 0 <= k < i && ok(xs[..i][k]) && key(xs[..i][k]) == key(xs[i]);
        assert p[k] == xs[..i][k];
      }
    }
  }

  /** Two acceptable elements: the second survives exactly when its key differs. */
  lemma DedupByPair<T, K>(x: T, y: T, key: T -> K, ok: T -> bool)
    requires ok(x) && ok(y)
    ensures DedupBy([x, y], key, ok) == if key(x) == key(y) then [x] else [x, y]
  {
    assert [x, y][..1] == [x];
    assert [x][..0] == [];
    assert [x][0] == x;
    assert key(x) in KeysOf([x], key);
    assert forall k :: k in KeysOf([x], key) ==> k == key(x);
  }

  /** `xs[j]` is the first acceptable element with its key. */
  predicate IsFirst<T, K(==)>(xs: seq<T>, j: int, key: T -> K, ok: T -> bool)
    requires 0 <= j < |xs|
  {
    ok(xs[j]) && forall i :: 0 <= i < j && ok(xs[i]) ==> key(xs[i]) != key(xs[j])
  }

  /** Reference definition: exactly the first acceptable occurrences, in input order. */
  function Firsts<T, K(==)>(xs: seq<T>, key: T -> K, ok: T -> bool): seq<T>
    decreases |xs|
  {
    if |xs| == 0 then []
    else
      Firsts(xs[..|xs| - 1], key, ok)
      + (if IsFirst(xs, |xs| - 1, key, ok) then [xs[|xs| - 1]] else [])
  }

  /** The one-pass loop keeps precisely the first acceptable occurrence of every
      key, in the order those occurrences appear. */
  lemma {:induction false} DedupByIsFirsts<T, K>(xs: seq<T>, key: T -> K, ok: T -> bool)
    ensures DedupBy(xs, key, ok) == Firsts(xs, key, ok)
    decreases |xs|
  {
    if |xs| > 0 {
      var init := xs[..|xs| - 1];
      var x := xs[|xs| - 1];
      DedupByIsFirsts(init, key, ok);
      var r0 := DedupBy(init, key, ok);
      assert KeysOf(r0, key) == OkKeys(init, key, ok);
      assert IsFirst(xs, |xs| - 1, key, ok) <==> ok(x) && key(x) !in OkKeys(init, key, ok) by {
        assert forall i :: 0 <= i < |init| ==> xs[i] == init[i];
        if ok(x) && key(x) in OkKeys(init, key, ok) {
          var i :| 0 <= i < |init| && ok(init[i]) && key(init[i]) == key(x);
          assert xs[i] == init[i];
        }
      }
    }
  }

  /** A list already free of rejected elements and repeated keys passes unchanged. */
  lemma {:induction false} DedupByFixpoint<T, K>(xs: seq<T>, key: T -> K, ok: T -> bool)
    requires forall i :: 0 <= i < |xs| ==> ok(xs[i])
    requires KeysDistinct(xs, key)
    ensures DedupBy(xs, key, ok) == xs
    decreases |xs|
  {
    if |xs| > 0 {
      var init := xs[..|xs| - 1];
      DedupByFixpoint(init, key, ok);
      var x := xs[|xs| - 1];
      assert forall i :: 0 <= i < |init| ==> init[i] == xs[i];
      assert key(x) !in KeysOf(init, key);
      assert init + [x] == xs;
    }
  }

  /** Running the pass twice is the same as running it once. */
  lemma DedupByIdempotent<T, K>(xs: seq<T>, key: T -> K, ok: T -> bool)
    ensures DedupBy(DedupBy(xs, key, ok), key, ok) == DedupBy(xs, key, ok)
  {
    DedupByFixpoint(DedupBy(xs, key, ok), key, ok);
  }

  /** Appending input never disturbs what was already emitted. */
  lemma {:induction false} DedupByPrefix<T, K>(xs: seq<T>, ys: seq<T>, key: T -> K, ok: T -> bool)
    ensures |DedupBy(xs, key, ok)| <= |DedupBy(xs + ys, key, ok)|
    ensures DedupBy(xs + ys, key, ok)[..|DedupBy(xs, key, ok)|] == DedupBy(xs, key, ok)
    decreases |ys|
  {
    if |ys| == 0 {
      assert xs + ys == xs;
    } else {
      var ys0 := ys[..|ys| - 1];
      DedupByPrefix(xs, ys0, key, ok);
      assert (xs + ys)[..|xs + ys| - 1] == xs + ys0;
    }
  }

  /** Python's `s[:n]`: a prefix; a negative `n` drops that many elements from the end. */
  function SliceTo<T>(s: seq<T>, n: int): (r: seq<T>)
    ensures |r| <= |s| && r == s[..|r|]
    ensures n >= 0 ==> |r| == if n < |s| then n else |s|
    ensures n < 0 ==> |r| == if |s| + n > 0 then |s| + n else 0
  {
    if n >= 0 then (if n < |s| then s[..n] else s)
    else (if |s| + n > 0 then s[..|s| + n] else [])
  }

  lemma {:induction false} FilterAppend<T>(p: T -> bool, xs: seq<T>, ys: seq<T>)
    ensures Filter(p, xs + ys) == Filter(p, xs) + Filter(p, ys)
    decreases |xs|
  {
    if |xs| == 0 {
      assert xs + ys == ys;
    } else {
      FilterAppend(p, xs[1..], ys);
      assert (xs + ys)[1..] == xs[1..] + ys;
      var h := if p(xs[0]) then [xs[0]] else [];
      assert Filter(p, xs + ys) == h + Filter(p, xs[1..] + ys);
      assert h + (Filter(p, xs[1..]) + Filter(p, ys)) == (h + Filter(p, xs[1..])) + Filter(p, ys);
    }
  }

  lemma FilterMembers<T>(p: T -> bool, xs: seq<T>)
    ensures forall y :: y in Filter(p, xs) ==> y in xs && p(y)
    decreases |xs|
  {
    if |xs| > 0 {
      FilterMembers(p, xs[1..]);
    }
  }

  predicate IsSome<B>(o: Option<B>) {
    o.Some?
  }

  /** `Choose` keeps exactly the successful conversions, each once and in
      input order: wrapped back in `Some`, its results are the `Some` entries
      of the converted inputs. */
  lemma {:induction false} ChooseIsFilter<A, B>(f: A -> Option<B>, xs: seq<A>)
    ensures Map(Wrap, Choose(f, xs)) == Filter(IsSome, Map(f, xs))
    decreases |xs|
  {
    if |xs| > 0 {
      var init := xs[..|xs| - 1];
      var x := xs[|xs| - 1];
      ChooseIsFilter(f, init);
      assert xs == init + [x];
      MapAppend(f, init, [x]);
      FilterAppend(IsSome, Map(f, init), Map(f, [x]));
      assert Map(f, [x]) == [f(x)];
      assert Filter(IsSome, [f(x)]) == (if IsSome(f(x)) then [f(x)] else []) + Filter(IsSome, [f(x)][1..]);
      var r0 := Choose(f, init);
      match f(x)
      case None =>
      case Some(v) =>
        MapAppend(Wrap, r0, [v]);
        assert Map(Wrap, [v]) == [Some(v)];
    }
  }

  // ---------------------------------------------------------------------------
  // convert, keep first of every key, stop at a cap
  // ---------------------------------------------------------------------------

  predicate Always<T>(x: T) {
    true
  }

  /** Convert with `f`, skipping what does not convert, and keep the first
      result of every key. */
  function ChooseDistinct<A, B(==), K(==)>(f: A -> Option<B>, key: B -> K, xs: seq<A>): (r: seq<B>)
    ensures |r| <= |xs|
    ensures KeysDistinct(r, key)
    ensures KeysOf(r, key) == KeysOf(Choose(f, xs), key)
    ensures forall i :: 0 <= i < |r| ==> exists j :: 0 <= j < |xs| && f(xs[j]) == Some(r[i])
  {
    var ys := Choose(f, xs);
    var r := DedupBy(ys, key, Always);
    assert OkKeys(ys, key, Always) == KeysOf(ys, key);
    ChooseMembers(f, xs);
    forall i | 0 <= i < |r| ensures exists j :: 0 <= j < |xs| && f(xs[j]) == Some(r[i]) {
      assert r[i] in ys;
    }
    r
  }

  /** Something converts exactly when something is kept. */
  lemma ChooseDistinctEmpty<A, B, K>(f: A -> Option<B>, key: B -> K, xs: seq<A>)
    ensures ChooseDistinct(f, key, xs) == [] <==> Choose(f, xs) == []
  {
    var ys := Choose(f, xs);
    if ys != [] {
      assert key(ys[0]) in KeysOf(ys, key);
    }
  }

  function Min(a: int, b: int): int {
    if a <= b then a else b
  }

  function Max(a: int, b: int): int {
    if a >= b then a else b
  }

  /** A limit checked after each append: with `maxNum` set, at most
      `max(1, maxNum)` elements, since one is appended before the first check. */
  function Cap<T>(xs: seq<T>, maxNum: Option<int>): (r: seq<T>)
    ensures |r| <= |xs| && r == xs[..|r|]
    ensures maxNum.None? ==> r == xs
    ensures maxNum.Some? ==> |r| == Min(|xs|, Max(1, maxNum.value))
  {
    if maxNum.None? then xs else SliceTo(xs, Max(1, maxNum.value))
  }

  /** `ChooseDistinct` one element at a time, as the loop builds it. */
  function Emitted<A, B(==), K(==)>(f: A -> Option<B>, key: B -> K, xs: seq<A>): seq<B>
    decreases |xs|
  {
    if |xs| == 0 then []
    else
      var done := Emitted(f, key, xs[..|xs| - 1]);
      match f(xs[|xs| - 1])
      case None => done
      case Some(y) => if key(y) in KeysOf(done, key) then done else done + [y]
  }

  lemma {:induction false} EmittedIsChooseDistinct<A, B, K>(f: A -> Option<B>, key: B -> K, xs: seq<A>)
    ensures Emitted(f, key, xs) == ChooseDistinct(f, key, xs)
    decreases |xs|
  {
    if |xs| > 0 {
      var init := xs[..|xs| - 1];
      EmittedIsChooseDistinct(f, key, init);
      var c := Choose(f, init);
      match f(xs[|xs| - 1])
      case None =>
        assert Choose(f, xs) == c;
      case Some(y) =>
        assert Choose(f, xs) == c + [y];
        assert (c + [y])[..|c|] == c;
        assert (c + [y])[|c|] == y;
    }
  }

  /** Stopping after a prefix whose output reached the cap gives the capped
      output of the whole input. */
  lemma ChooseDistinctCapped<A, B, K>(f: A -> Option<B>, key: B -> K, xs: seq<A>, n: nat, maxNum: Option<int>)
    requires n <= |xs| && maxNum.Some?
    requires |ChooseDistinct(f, key, xs[..n])| == Max(1, maxNum.value)
    ensures Cap(ChooseDistinct(f, key, xs), maxNum) == ChooseDistinct(f, key, xs[..n])
  {
    var head := Choose(f, xs[..n]);
    var tail := Choose(f, xs[n..]);
    assert xs[..n] + xs[n..] == xs;
    ChooseAppend(f, xs[..n], xs[n..]);
    DedupByPrefix(head, tail, key, Always);
  }

  lemma KeysOfSnoc<T, K>(xs: seq<T>, x: T, key: T -> K)
    ensures KeysOf(xs + [x], key) == KeysOf(xs, key) + {key(x)}
  {
    assert forall k :: 0 <= k < |xs| ==> (xs + [x])[k] == xs[k];
    assert (xs + [x])[|xs|] == x;
  }

  /** The loop the source writes: convert, skip a seen key, append, and stop as
      soon as the output has reached the cap. */
  method ChooseDistinctLoop<A, B(==), K(==)>(f: A -> Option<B>, key: B -> K, xs: seq<A>, maxNum: Option<int>)
    returns (out: seq<B>)
    ensures out == Cap(ChooseDistinct(f, key, xs), maxNum)
  {
    out := [];
    var seen: set<K> := {};
    var i := 0;
    while i < |xs|
      invariant 0 <= i <= |xs|
      invariant out == Emitted(f, key, xs[..i])
      invariant seen == KeysOf(out, key)
      invariant maxNum.Some? ==> |out| < Max(1, maxNum.value)
    {
      assert xs[..i + 1][..i] == xs[..i];
      var y := f(xs[i]);
      if y.Some? && key(y.value) !in seen {
        KeysOfSnoc(out, y.value, key);
        out := out + [y.value];
        seen := seen + {key(y.value)};
        if maxNum.Some? && |out| >= maxNum.value {
          EmittedIsChooseDistinct(f, key, xs[..i + 1]);
          ChooseDistinctCapped(f, key, xs, i + 1, maxNum);
          return;
        }
      }
      i := i + 1;
    }
    assert xs[..i] == xs;
    EmittedIsChooseDistinct(f, key, xs);
  }
}
