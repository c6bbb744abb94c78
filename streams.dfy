/**
 * The stream combinators of streams.js, over the finite sequence of elements a
 * stream delivers. Each function follows the recursion of the source method it
 * models; the delayed variants take the delayed argument as a thunk.
 */
module Streams {

  /** streams.singletonStream. */
  function Singleton<T>(x: T): (r: seq<T>)
    ensures |r| == 1 && r[0] == x
  {
    [x]
  }

  /** map: the stream of `func` applied to each element. */
  function Map<T, U>(s: seq<T>, func: T -> U): (r: seq<U>)
    ensures |r| == |s|
    ensures forall i :: 0 <= i < |s| ==> r[i] == func(s[i])
  {
    if s == [] then [] else [func(s[0])] + Map(s[1..], func)
  }

  /** filter: the elements satisfying `pred`, in order. */
  function Filter<T>(s: seq<T>, pred: T -> bool): (r: seq<T>)
    ensures forall i :: 0 <= i < |r| ==> pred(r[i])
    ensures forall i :: 0 <= i < |r| ==> r[i] in s
    ensures forall i :: 0 <= i < |s| && pred(s[i]) ==> s[i] in r
    ensures |r| <= |s|
  {
    if s == [] then []
    else if pred(s[0]) then [s[0]] + Filter(s[1..], pred)
    else Filter(s[1..], pred)
  }

  /** take: the first `n` elements; a negative `n` never reaches the stop cases and keeps everything. */
  function Take<T>(s: seq<T>, n: int): (r: seq<T>)
    ensures 0 <= n <= |s| ==> r == s[..n]
    ensures n > |s| || n < 0 ==> r == s
  {
    if n == 0 then []
    else if s == [] then []
    else if n == 1 then Singleton(s[0])
    else [s[0]] + Take(s[1..], n - 1)
  }

  /** append. */
  function Append<T>(a: seq<T>, b: seq<T>): (r: seq<T>)
    ensures r == a + b
  {
    if a == [] then b
    else
      assert a == [a[0]] + a[1..];
      [a[0]] + Append(a[1..], b)
  }

  /** appendDelayed: the delayed stream is asked for only once `a` is used up. */
  function AppendDelayed<T>(a: seq<T>, s: () -> seq<T>): (r: seq<T>)
    ensures r == Append(a, s())
  {
    if a == [] then s() else [a[0]] + AppendDelayed(a[1..], s)
  }

  /** interleave: alternate between the two streams, starting with `a`. */
  function Interleave<T>(a: seq<T>, b: seq<T>): (r: seq<T>)
    ensures |r| == |a| + |b|
    ensures multiset(r) == multiset(a) + multiset(b)
    decreases |a| + |b|
  {
    if a == [] then b
    else
      assert a == [a[0]] + a[1..];
      [a[0]] + Interleave(b, a[1..])
  }

  /** interleaveDelayed: as interleave, asking for the delayed stream after the first element. */
  function InterleaveDelayed<T>(a: seq<T>, s: () -> seq<T>): (r: seq<T>)
    ensures r == Interleave(a, s())
  {
    if a == [] then s() else [a[0]] + Interleave(s(), a[1..])
  }

  /** All the elements of a stream of streams, stream after stream. */
  ghost function Concat<T>(ss: seq<seq<T>>): seq<T> {
    if ss == [] then [] else ss[0] + Concat(ss[1..])
  }

  /** flattenDelayed: interleave each stream with the flattening of the later ones. */
  function FlattenDelayed<T>(ss: seq<seq<T>>): (r: seq<T>)
    ensures multiset(r) == multiset(Concat(ss))
  {
    if ss == [] then [] else InterleaveDelayed(ss[0], () => FlattenDelayed(ss[1..]))
  }

  /** flatmapDelayed: map, then flatten; it holds the elements of all the mapped streams, as often as they occur. */
  function FlatmapDelayed<T, U>(s: seq<T>, func: T -> seq<U>): (r: seq<U>)
    ensures multiset(r) == multiset(Concat(Map(s, func)))
  {
    FlattenDelayed(Map(s, func))
  }

  ghost predicate Increasing(s: seq<int>) {
    forall i, j :: 0 <= i < j < |s| ==> s[i] < s[j]
  }

  /** merge: merge two streams of integers, keeping one copy of equal heads. */
  function Merge(a: seq<int>, b: seq<int>): (r: seq<int>)
    ensures forall x :: x in r <==> x in a || x in b
    decreases |a| + |b|
  {
    if b == [] then a
    else if a == [] then b
    else if a[0] < b[0] then [a[0]] + Merge(a[1..], b)
    else if a[0] > b[0] then [b[0]] + Merge(a, b[1..])
    else [a[0]] + Merge(a[1..], b[1..])
  }

  /** range: the integers from `a` to `b` inclusive. */
  function Range(a: int, b: int): (r: seq<int>)
    ensures |r| == if a > b then 0 else b - a + 1
    ensures forall i :: 0 <= i < |r| ==> r[i] == a + i
    decreases if a > b then 0 else b - a + 1
  {
    if a > b then [] else [a] + Range(a + 1, b)
  }

  /** reduce: fold the elements from the left. */
  function FoldLeft<T, U>(func: (U, T) -> U, init: U, s: seq<T>): U {
    if s == [] then init else FoldLeft(func, func(init, s[0]), s[1..])
  }

  // ---- Properties

  lemma {:induction false} MapCompose<T, U, V>(s: seq<T>, f: T -> U, g: U -> V)
    ensures Map(Map(s, f), g) == Map(s, x => g(f(x)))
  {
  }

  lemma {:induction false} FilterAppend<T>(a: seq<T>, b: seq<T>, pred: T -> bool)
    ensures Filter(a + b, pred) == Filter(a, pred) + Filter(b, pred)
  {
    if a != [] {
      assert (a + b)[0] == a[0];
      assert (a + b)[1..] == a[1..] + b;
      FilterAppend(a[1..], b, pred);
    } else {
      assert a + b == b;
    }
  }

  /** Taking more elements keeps the ones taken before. */
  lemma TakePrefix<T>(s: seq<T>, m: nat, n: nat)
    requires m <= n
    ensures Take(s, m) <= Take(s, n)
  {
  }

  /**
   * Interleaving is fair: the elements of the two streams alternate until the
   * shorter one runs out, and the rest of the longer one follows in order.
   */
  lemma InterleaveAlternates<T>(a: seq<T>, b: seq<T>)
    ensures forall i :: 0 <= i < |a| && i <= |b| ==> Interleave(a, b)[2 * i] == a[i]
    ensures forall i :: 0 <= i < |b| && i < |a| ==> Interleave(a, b)[2 * i + 1] == b[i]
    ensures |a| <= |b| ==> forall j :: 2 * |a| <= j < |a| + |b| ==> Interleave(a, b)[j] == b[j - |a|]
    ensures |b| < |a| ==> forall j :: 2 * |b| <= j < |a| + |b| ==> Interleave(a, b)[j] == a[j - |b|]
  {
    forall i | 0 <= i < |a| && i <= |b| ensures Interleave(a, b)[2 * i] == a[i] {
      InterleaveEven(a, b, i);
    }
    forall i | 0 <= i < |b| && i < |a| ensures Interleave(a, b)[2 * i + 1] == b[i] {
      InterleaveOdd(a, b, i);
    }
    forall j | 2 * |a| <= j < |a| + |b| ensures Interleave(a, b)[j] == b[j - |a|] {
      InterleaveRest(a, b, j);
    }
    forall j | 2 * |b| <= j < |a| + |b| && |b| < |a| ensures Interleave(a, b)[j] == a[j - |b|] {
      InterleaveRest(a, b, j);
    }
  }

  /** Position 2i of an interleaving holds the i-th element of the first stream. */
  lemma {:induction false} InterleaveEven<T>(a: seq<T>, b: seq<T>, i: nat)
    requires i < |a| && i <= |b|
    ensures Interleave(a, b)[2 * i] == a[i]
    decreases i, 0
  {
    if i > 0 {
      assert Interleave(a, b)[2 * i] == Interleave(b, a[1..])[2 * i - 1];
      InterleaveOdd(b, a[1..], i - 1);
    }
  }

  /** Position 2i+1 of an interleaving holds the i-th element of the second stream. */
  lemma {:induction false} InterleaveOdd<T>(a: seq<T>, b: seq<T>, i: nat)
    requires i < |a| && i < |b|
    ensures Interleave(a, b)[2 * i + 1] == b[i]
    decreases i, 1
  {
    assert Interleave(a, b)[2 * i + 1] == Interleave(b, a[1..])[2 * i];
    InterleaveEven(b, a[1..], i);
  }

  /** Once the shorter stream runs out, the rest of the longer one follows in order. */
  lemma {:induction false} InterleaveRest<T>(a: seq<T>, b: seq<T>, j: nat)
    requires j < |a| + |b|
    requires 2 * |a| <= j || (2 * |b| <= j && |b| < |a|)
    ensures |a| <= |b| ==> Interleave(a, b)[j] == b[j - |a|]
    ensures |b| < |a| ==> Interleave(a, b)[j] == a[j - |b|]
    decreases |a| + |b|
  {
    if a != [] {
      if j == 0 {
      } else if j == 2 * |b| && |b| < |a| {
        InterleaveEven(a, b, |b|);
      } else {
        assert Interleave(a, b)[j] == Interleave(b, a[1..])[j - 1];
        InterleaveRest(b, a[1..], j - 1);
      }
    }
  }

  /** A flattened stream holds exactly the elements of its component streams. */
  lemma FlattenMembers<T>(ss: seq<seq<T>>, x: T)
    ensures x in FlattenDelayed(ss) <==> exists i :: 0 <= i < |ss| && x in ss[i]
  {
    ConcatMembers(ss, x);
    assert x in FlattenDelayed(ss) <==> x in multiset(Concat(ss));
  }

  /** An element comes out of flatmapDelayed exactly when `func` yields it for some element. */
  lemma FlatmapMembers<T, U>(s: seq<T>, func: T -> seq<U>, x: U)
    ensures x in FlatmapDelayed(s, func) <==> exists i :: 0 <= i < |s| && x in func(s[i])
  {
    var ms := Map(s, func);
    FlattenMembers(ms, x);
    if exists i :: 0 <= i < |s| && x in func(s[i]) {
      var i :| 0 <= i < |s| && x in func(s[i]);
      assert x in ms[i];
    }
  }

  lemma {:induction false} ConcatMembers<T>(ss: seq<seq<T>>, x: T)
    ensures x in Concat(ss) <==> exists i :: 0 <= i < |ss| && x in ss[i]
  {
    if ss != [] {
      ConcatMembers(ss[1..], x);
      if x in Concat(ss[1..]) {
        var i :| 0 <= i < |ss[1..]| && x in ss[1..][i];
        assert x in ss[i + 1];
      }
      if exists i :: 0 <= i < |ss| && x in ss[i] {
        var i :| 0 <= i < |ss| && x in ss[i];
        if i > 0 {
          assert x in ss[1..][i - 1];
        }
      }
    }
  }

  /** Merging two increasing streams gives an increasing stream. */
  lemma {:induction false} MergeIncreasing(a: seq<int>, b: seq<int>)
    requires Increasing(a) && Increasing(b)
    ensures Increasing(Merge(a, b))
    decreases |a| + |b|
  {
    if a != [] && b != [] {
      var r := Merge(a, b);
      var h := if a[0] <= b[0] then a[0] else b[0];
      var rest: seq<int>;
      if a[0] < b[0] {
        rest := Merge(a[1..], b);
        MergeIncreasing(a[1..], b);
      } else if a[0] > b[0] {
        rest := Merge(a, b[1..]);
        MergeIncreasing(a, b[1..]);
      } else {
        rest := Merge(a[1..], b[1..]);
        MergeIncreasing(a[1..], b[1..]);
      }
      assert r == [h] + rest;
      forall j | 0 <= j < |rest| ensures h < rest[j] {
        assert rest[j] in rest;
      }
    }
  }

  lemma {:induction false} FoldLeftAppend<T, U>(func: (U, T) -> U, init: U, a: seq<T>, b: seq<T>)
    ensures FoldLeft(func, init, a + b) == FoldLeft(func, FoldLeft(func, init, a), b)
  {
    if a != [] {
      assert (a + b)[0] == a[0];
      assert (a + b)[1..] == a[1..] + b;
      FoldLeftAppend(func, func(init, a[0]), a[1..], b);
    } else {
      assert a + b == b;
    }
  }
}
