/** Sequence operations that the candidate extractor borrows from the
    language: a `Set` that remembers insertion order, and the stable
    `Array.prototype.sort` with a by-length comparator. */
module Seqs {
  import opened Wrappers

  predicate Distinct<T(==)>(s: seq<T>)
  {
    forall i, j :: 0 <= i < j < |s| ==> s[i] != s[j]
  }

  /** The index of the first occurrence of `x` in `s`. */
  function FirstIndex<T(==)>(s: seq<T>, x: T): (i: nat)
    requires x in s
    ensures i < |s| && s[i] == x && x !in s[..i]
  {
    if s[0] == x then 0 else 1 + FirstIndex(s[1..], x)
  }

  lemma FirstIndexOfPrefix<T>(s: seq<T>, n: nat, x: T)
    requires n <= |s| && x in s[..n]
    ensures x in s && FirstIndex(s, x) == FirstIndex(s[..n], x)
  {
    var i := FirstIndex(s[..n], x);
    assert s[..n][..i] == s[..i];
  }

  /** `Array.from(new Set(s))`: the elements of `s` without repetition,
      in the order in which each first appears. */
  function Dedup<T(==)>(s: seq<T>): (r: seq<T>)
    ensures Distinct(r)
    ensures forall i :: 0 <= i < |r| ==> r[i] in s
    ensures forall i :: 0 <= i < |s| ==> s[i] in r
    ensures forall i, j :: 0 <= i < j < |r| ==> FirstIndex(s, r[i]) < FirstIndex(s, r[j])
  {
    if s == [] then []
    else
      var init := s[..|s| - 1];
      var x := s[|s| - 1];
      var d := Dedup(init);
      assert init + [x] == s;
      DedupStep(init, x, d);
      if x in d then d else d + [x]
  }

  /** `r` lists the elements of `s` once each, in order of first
      appearance. */
  ghost predicate IsDedupOf<T>(s: seq<T>, r: seq<T>)
  {
    && Distinct(r)
    && (forall i :: 0 <= i < |r| ==> r[i] in s)
    && (forall i :: 0 <= i < |s| ==> s[i] in r)
    && (forall i, j :: 0 <= i < j < |r| ==> r[i] in s && r[j] in s && FirstIndex(s, r[i]) < FirstIndex(s, r[j]))
  }

  /** `Dedup` meets its description, and keeps exactly the elements. */
  lemma DedupIsDedupOf<T>(s: seq<T>)
    ensures IsDedupOf(s, Dedup(s))
    ensures forall x :: x in Dedup(s) <==> x in s
  {
    var r := Dedup(s);
    forall x
      ensures x in r <==> x in s
    {
      if x in r {
        var k :| 0 <= k < |r| && r[k] == x;
      }
      if x in s {
        var k :| 0 <= k < |s| && s[k] == x;
      }
    }
  }

  lemma DedupStep<T>(init: seq<T>, x: T, d: seq<T>)
    requires IsDedupOf(init, d)
    ensures IsDedupOf(init + [x], if x in d then d else d + [x])
  {
    var s := init + [x];
    assert s[..|init|] == init;
    forall y | y in d
      ensures y in s && FirstIndex(s, y) == FirstIndex(init, y)
    {
      FirstIndexOfPrefix(s, |init|, y);
    }
    forall i | 0 <= i < |s|
      ensures s[i] == x || s[i] in d
    {
      if i < |init| {
        assert s[i] == init[i];
      }
    }
    if x !in d {
      DedupStepNew(init, x, d);
    }
  }

  /** The last element is new: it goes at the end. */
  lemma DedupStepNew<T>(init: seq<T>, x: T, d: seq<T>)
    requires IsDedupOf(init, d) && x !in d
    requires forall y :: y in d ==> y in init + [x] && FirstIndex(init + [x], y) == FirstIndex(init, y)
    ensures IsDedupOf(init + [x], d + [x])
  {
    var s := init + [x];
    var r := d + [x];
    assert x !in init;
    assert FirstIndex(s, x) == |init|;
    forall i, j | 0 <= i < j < |r|
      ensures r[i] in s && r[j] in s && FirstIndex(s, r[i]) < FirstIndex(s, r[j])
    {
      assert r[i] == d[i];
      if j < |d| {
        assert r[j] == d[j];
      }
    }
    forall i | 0 <= i < |r|
      ensures r[i] in s
    {
      if i < |d| {
        assert r[i] == d[i];
      }
    }
  }

  /** Appending an element to `s` appends it to `Dedup(s)` unless it is
      already in `s`. */
  lemma DedupSnoc<T>(s: seq<T>, x: T)
    ensures x in Dedup(s) <==> x in s
    ensures Dedup(s + [x]) == if x in s then Dedup(s) else Dedup(s) + [x]
  {
    var t := s + [x];
    assert t[..|t| - 1] == s;
    var d := Dedup(s);
    if x in s {
      var i :| 0 <= i < |s| && s[i] == x;
      assert s[i] in d;
    }
  }

  /** An element occurs at most once in a sequence without repetition. */
  lemma {:induction false} DistinctCount<T>(s: seq<T>, x: T)
    requires Distinct(s)
    ensures multiset(s)[x] <= 1
    decreases |s|
  {
    if s != [] {
      assert s == [s[0]] + s[1..];
      assert Distinct(s[1..]);
      DistinctCount(s[1..], x);
      if s[0] == x {
        assert x !in s[1..];
      }
    }
  }

  /** A rearrangement of a sequence without repetition has none either. */
  lemma PermutationKeepsDistinct<T>(a: seq<T>, b: seq<T>)
    requires Distinct(a) && multiset(a) == multiset(b)
    ensures Distinct(b)
  {
    forall i, j | 0 <= i < j < |b|
      ensures b[i] != b[j]
    {
      if b[i] == b[j] {
        var x := b[i];
        assert b == b[..j] + [b[j]] + b[j + 1..];
        assert x in b[..j];
        assert multiset(b[..j])[x] >= 1;
        assert multiset(b)[x] >= 2;
        DistinctCount(a, x);
        assert false;
      }
    }
  }

  // ---------------------------------------------------------------------
  // First match

  /** The position of the first element satisfying `p`: the shape of a
      `for ... of` loop that returns at the first element it accepts. */
  function FindFirst<T>(s: seq<T>, p: T -> bool): (r: Option<nat>)
    ensures r.None? <==> forall k :: 0 <= k < |s| ==> !p(s[k])
    ensures r.Some? ==> r.value < |s| && p(s[r.value])
    ensures r.Some? ==> forall l :: 0 <= l < r.value ==> !p(s[l])
  {
    FindFrom(s, p, 0)
  }

  function FindFrom<T>(s: seq<T>, p: T -> bool, from: nat): (r: Option<nat>)
    requires from <= |s|
    ensures r.None? <==> forall k :: from <= k < |s| ==> !p(s[k])
    ensures r.Some? ==> from <= r.value < |s| && p(s[r.value])
    ensures r.Some? ==> forall l :: from <= l < r.value ==> !p(s[l])
    decreases |s| - from
  {
    if from == |s| then None
    else if p(s[from]) then Some(from)
    else FindFrom(s, p, from + 1)
  }

  /** In a sequence sorted longest first, no element strictly longer than
      the first match is a match. */
  lemma FirstMatchIsLongest<T>(s: seq<T>, len: T -> nat, p: T -> bool)
    requires NonIncreasingLength(s, len)
    ensures FindFirst(s, p).Some? ==>
      forall l :: 0 <= l < |s| && len(s[l]) > len(s[FindFirst(s, p).value]) ==> !p(s[l])
  {
    if FindFirst(s, p).Some? {
      var k := FindFirst(s, p).value;
      forall l | 0 <= l < |s| && len(s[l]) > len(s[k])
        ensures !p(s[l])
      {
        assert l < k;
      }
    }
  }

  // ---------------------------------------------------------------------
  // Stable sort by descending length
  //
  // The length is a parameter `len`: JavaScript's `.length` of a string
  // counts UTF-16 code units, not characters.

  predicate NonIncreasingLength<T>(s: seq<T>, len: T -> nat)
  {
    forall i, j :: 0 <= i < j < |s| ==> len(s[j]) <= len(s[i])
  }

  /** The elements of `s` of length `n`, in order. */
  function WithLength<T>(s: seq<T>, n: nat, len: T -> nat): (r: seq<T>)
    ensures |r| <= |s|
    ensures forall i :: 0 <= i < |r| ==> r[i] in s && len(r[i]) == n
    ensures forall i :: 0 <= i < |s| && len(s[i]) == n ==> s[i] in r
  {
    if s == [] then [] else (if len(s[0]) == n then [s[0]] else []) + WithLength(s[1..], n, len)
  }

  lemma {:induction false} WithLengthAppend<T>(a: seq<T>, b: seq<T>, n: nat, len: T -> nat)
    ensures WithLength(a + b, n, len) == WithLength(a, n, len) + WithLength(b, n, len)
    decreases |a|
  {
    if a != [] {
      assert (a + b)[1..] == a[1..] + b;
      WithLengthAppend(a[1..], b, n, len);
      assert (a + b)[0] == a[0];
    } else {
      assert a + b == b;
    }
  }

  /** Inserts `x` after every element at least as long as it. */
  function InsertByLength<T>(x: T, t: seq<T>, len: T -> nat): (r: seq<T>)
    ensures multiset(r) == multiset(t) + multiset{x}
  {
    if t == [] then [x]
    else if len(t[0]) >= len(x) then
      assert t == [t[0]] + t[1..];
      [t[0]] + InsertByLength(x, t[1..], len)
    else [x] + t
  }

  lemma {:induction false} InsertKeepsSorted<T>(x: T, t: seq<T>, len: T -> nat)
    requires NonIncreasingLength(t, len)
    ensures NonIncreasingLength(InsertByLength(x, t, len), len)
    decreases |t|
  {
    if t != [] && len(t[0]) >= len(x) {
      NonIncreasingTail(t, len);
      InsertKeepsSorted(x, t[1..], len);
      var r := InsertByLength(x, t, len);
      var r' := InsertByLength(x, t[1..], len);
      assert r == [t[0]] + r';
      forall k | 0 <= k < |r'|
        ensures len(r'[k]) <= len(t[0])
      {
        assert r'[k] in multiset(r');
      }
    }
  }

  lemma {:induction false} InsertKeepsTies<T>(x: T, t: seq<T>, n: nat, len: T -> nat)
    requires NonIncreasingLength(t, len)
    ensures WithLength(InsertByLength(x, t, len), n, len) == WithLength(t, n, len) + WithLength([x], n, len)
    decreases |t|
  {
    WithLengthCons(x, [], n, len);
    if t == [] {
    } else if len(t[0]) >= len(x) {
      NonIncreasingTail(t, len);
      InsertKeepsTies(x, t[1..], n, len);
      InsertAfterHead(x, t, n, len);
    } else {
      assert InsertByLength(x, t, len) == [x] + t;
      WithLengthCons(x, t, n, len);
      if len(x) == n {
        NoneOfLength(t, n, len);
      }
    }
  }

  /** The step of `InsertKeepsTies` where `x` goes after the head. */
  lemma InsertAfterHead<T>(x: T, t: seq<T>, n: nat, len: T -> nat)
    requires t != [] && len(t[0]) >= len(x)
    requires WithLength(InsertByLength(x, t[1..], len), n, len) == WithLength(t[1..], n, len) + WithLength([x], n, len)
    ensures WithLength(InsertByLength(x, t, len), n, len) == WithLength(t, n, len) + WithLength([x], n, len)
  {
    var rest := InsertByLength(x, t[1..], len);
    assert InsertByLength(x, t, len) == [t[0]] + rest;
    WithLengthCons(t[0], rest, n, len);
    WithLengthCons(t[0], t[1..], n, len);
    assert [t[0]] + t[1..] == t;
    var h := if len(t[0]) == n then [t[0]] else [];
    AppendAssoc(h, WithLength(t[1..], n, len), WithLength([x], n, len));
  }

  lemma NonIncreasingTail<T>(t: seq<T>, len: T -> nat)
    requires t != [] && NonIncreasingLength(t, len)
    ensures NonIncreasingLength(t[1..], len)
  {
  }

  lemma AppendAssoc<T>(a: seq<T>, b: seq<T>, c: seq<T>)
    ensures a + (b + c) == (a + b) + c
  {
  }

  /** `WithLength` of a sequence given by its first element. */
  lemma WithLengthCons<T>(h: T, rest: seq<T>, n: nat, len: T -> nat)
    ensures WithLength([h] + rest, n, len) == (if len(h) == n then [h] else []) + WithLength(rest, n, len)
  {
    assert ([h] + rest)[1..] == rest;
  }

  /** A sequence of elements all shorter than `n` has none of length `n`. */
  lemma NoneOfLength<T>(t: seq<T>, n: nat, len: T -> nat)
    requires NonIncreasingLength(t, len)
    requires t != [] ==> len(t[0]) < n
    ensures WithLength(t, n, len) == []
  {
  }

  /** `s.slice().sort((a, b) => b.length - a.length)`: longest first, and
      elements of equal length in their original order (the sort is
      stable). */
  function SortByLengthDesc<T>(s: seq<T>, len: T -> nat): (r: seq<T>)
    ensures multiset(r) == multiset(s)
    ensures NonIncreasingLength(r, len)
    ensures forall n: nat :: WithLength(r, n, len) == WithLength(s, n, len)
  {
    if s == [] then []
    else
      var init := s[..|s| - 1];
      var x := s[|s| - 1];
      var sorted := SortByLengthDesc(init, len);
      assert s == init + [x];
      InsertKeepsSorted(x, sorted, len);
      forall n: nat
        ensures WithLength(InsertByLength(x, sorted, len), n, len) == WithLength(s, n, len)
      {
        WithLengthAppend(init, [x], n, len);
        InsertKeepsTies(x, sorted, n, len);
      }
      InsertByLength(x, sorted, len)
  }

  // ---------------------------------------------------------------------
  // Filter-map

  /** The results `f` gives for the elements of `s`, skipping the elements
      it gives `None` for: the shape of a `for ... of` loop that `continue`s
      past some elements and `push`es a value for the others. */
  function FilterMap<A, B>(s: seq<A>, f: A -> Option<B>): (r: seq<B>)
    ensures |r| <= |s|
    ensures forall i :: 0 <= i < |s| && f(s[i]).Some? ==> f(s[i]).value in r
  {
    if s == [] then []
    else
      var r := f(s[0]).ToSeq() + FilterMap(s[1..], f);
      assert forall i :: 1 <= i < |s| ==> s[i] == s[1..][i - 1];
      r
  }

  /** The positions in `s` that the results of `FilterMap(s, f)` come
      from. */
  ghost function Sources<A, B>(s: seq<A>, f: A -> Option<B>): seq<nat>
  {
    if s == [] then []
    else
      var shifted := Shift(Sources(s[1..], f));
      if f(s[0]).Some? then [0] + shifted else shifted
  }

  function Shift(xs: seq<nat>): (ys: seq<nat>)
    ensures |ys| == |xs|
    ensures forall k :: 0 <= k < |xs| ==> ys[k] == xs[k] + 1
  {
    seq(|xs|, k requires 0 <= k < |xs| => xs[k] + 1)
  }

  /** One source position per result, strictly increasing. */
  lemma {:induction false} SourcesIncreasing<A, B>(s: seq<A>, f: A -> Option<B>)
    ensures |Sources(s, f)| == |FilterMap(s, f)|
    ensures forall k :: 0 <= k < |Sources(s, f)| ==> Sources(s, f)[k] < |s|
    ensures forall k, l :: 0 <= k < l < |Sources(s, f)| ==> Sources(s, f)[k] < Sources(s, f)[l]
    decreases |s|
  {
    if s != [] {
      SourcesIncreasing(s[1..], f);
    }
  }

  /** Each result is what `f` gives at its source position. */
  lemma {:induction false} SourcesSound<A, B>(s: seq<A>, f: A -> Option<B>)
    ensures |Sources(s, f)| == |FilterMap(s, f)|
    ensures forall k :: 0 <= k < |Sources(s, f)| ==>
      Sources(s, f)[k] < |s| && f(s[Sources(s, f)[k]]) == Some(FilterMap(s, f)[k])
    decreases |s|
  {
    if s != [] {
      SourcesSound(s[1..], f);
      SourcesIncreasing(s, f);
      var rest := Sources(s[1..], f);
      var tail := FilterMap(s[1..], f);
      var head := f(s[0]).ToSeq();
      var r := FilterMap(s, f);
      var idx := Sources(s, f);
      assert r == head + tail;
      var h := if f(s[0]).Some? then [0] else [];
      assert idx == h + Shift(rest);
      assert |h| == |head|;
      forall k | |head| <= k < |idx|
        ensures f(s[idx[k]]) == Some(r[k])
      {
        var m := k - |head|;
        assert idx[k] == Shift(rest)[m];
        assert r[k] == tail[m];
        assert s[idx[k]] == s[1..][rest[m]];
      }
    }
  }

  /** Every position `f` does not skip is a source position. */
  lemma {:induction false} SourcesComplete<A, B>(s: seq<A>, f: A -> Option<B>)
    ensures forall i :: 0 <= i < |s| && f(s[i]).Some? ==> i in Sources(s, f)
    decreases |s|
  {
    if s != [] {
      SourcesComplete(s[1..], f);
      var rest := Sources(s[1..], f);
      var shifted := Shift(rest);
      forall i | 1 <= i < |s| && f(s[i]).Some?
        ensures i in Sources(s, f)
      {
        assert s[i] == s[1..][i - 1];
        var m :| 0 <= m < |rest| && rest[m] == i - 1;
        assert shifted[m] == i;
      }
    }
  }

  /** Filter-mapping a concatenation concatenates the results. */
  lemma {:induction false} FilterMapAppend<A, B>(a: seq<A>, b: seq<A>, f: A -> Option<B>)
    ensures FilterMap(a + b, f) == FilterMap(a, f) + FilterMap(b, f)
    decreases |a|
  {
    if a == [] {
      assert a + b == b;
    } else {
      assert (a + b)[0] == a[0];
      assert (a + b)[1..] == a[1..] + b;
      FilterMapAppend(a[1..], b, f);
    }
  }
}
