/**
 * The utility functions of logic_programming.js:494-563: uniqueValues sorts an
 * array of strings in place and keeps one copy of each run of equal strings;
 * extractVariables collects the variables of a term that way, as the strings
 * the source stores (`?` and the name).
 *
 * The source sorts with JavaScript's default `Array.prototype.sort`, which
 * orders strings lexicographically by code unit; here that order is `Below`
 * on characters, and the sort is an insertion sort, since the source leaves
 * the algorithm to the engine.
 */
module Utilities {
  import opened Terms

  /** Lexicographic order on strings: `a` comes no later than `b`. */
  predicate Below(a: string, b: string)
    decreases |a|
  {
    a == [] || (b != [] && (a[0] < b[0] || (a[0] == b[0] && Below(a[1..], b[1..]))))
  }

  lemma {:induction false} BelowRefl(a: string)
    ensures Below(a, a)
    decreases |a|
  {
    if a != [] {
      BelowRefl(a[1..]);
    }
  }

  lemma {:induction false} BelowAntisym(a: string, b: string)
    requires Below(a, b) && Below(b, a)
    ensures a == b
    decreases |a|
  {
    if a != [] {
      BelowAntisym(a[1..], b[1..]);
      assert a == [a[0]] + a[1..] && b == [b[0]] + b[1..];
    }
  }

  lemma {:induction false} BelowTrans(a: string, b: string, c: string)
    requires Below(a, b) && Below(b, c)
    ensures Below(a, c)
    decreases |a|
  {
    if a != [] && a[0] == b[0] && b[0] == c[0] {
      BelowTrans(a[1..], b[1..], c[1..]);
    }
  }

  lemma {:induction false} BelowTotal(a: string, b: string)
    ensures Below(a, b) || Below(b, a)
    decreases |a|
  {
    if a != [] && b != [] && a[0] == b[0] {
      BelowTotal(a[1..], b[1..]);
    }
  }

  ghost predicate Sorted(s: seq<string>) {
    forall i, j :: 0 <= i < j < |s| ==> Below(s[i], s[j])
  }

  ghost predicate StrictlySorted(s: seq<string>) {
    forall i, j :: 0 <= i < j < |s| ==> Below(s[i], s[j]) && s[i] != s[j]
  }

  /** arr.sort(): sorts the array in place, as an insertion sort. */
  method SortStrings(a: array<string>)
    modifies a
    ensures Sorted(a[..])
    ensures multiset(a[..]) == multiset(old(a[..]))
  {
    var i := 0;
    while i < a.Length
      invariant 0 <= i <= a.Length
      invariant forall k, l :: 0 <= k < l < i ==> Below(a[k], a[l])
      invariant multiset(a[..]) == multiset(old(a[..]))
    {
      InsertAt(a, i);
      i := i + 1;
    }
  }

  /** One pass of the insertion sort: move `a[i]` down into the sorted prefix `a[..i]`. */
  method InsertAt(a: array<string>, i: nat)
    requires i < a.Length
    requires forall k, l :: 0 <= k < l < i ==> Below(a[k], a[l])
    modifies a
    ensures forall k, l :: 0 <= k < l <= i ==> Below(a[k], a[l])
    ensures multiset(a[..]) == multiset(old(a[..]))
  {
    var j := i;
    while j > 0 && !Below(a[j - 1], a[j])
      invariant 0 <= j <= i
      invariant forall k, l :: 0 <= k < l <= i && k != j && l != j ==> Below(a[k], a[l])
      invariant forall l :: j < l <= i ==> Below(a[j], a[l])
      invariant multiset(a[..]) == multiset(old(a[..]))
    {
      BelowTotal(a[j - 1], a[j]);
      Swap(a, j);
      j := j - 1;
    }
    forall k | 0 <= k < j
      ensures Below(a[k], a[j])
    {
      if k < j - 1 {
        BelowTrans(a[k], a[j - 1], a[j]);
      }
    }
  }

  /** Exchange `a[j - 1]` and `a[j]`. */
  method Swap(a: array<string>, j: nat)
    requires 0 < j < a.Length
    modifies a
    ensures a[..] == old(a[..])[j - 1 := old(a[j])][j := old(a[j - 1])]
    ensures multiset(a[..]) == multiset(old(a[..]))
  {
    a[j - 1], a[j] := a[j], a[j - 1];
  }

  /**
   * The strings uniqueValues' loop has pushed after looking at the first `n`
   * elements: an element is pushed when it is the first or differs from the
   * one before it.
   */
  function Kept(s: seq<string>, n: nat): seq<string>
    requires n <= |s|
  {
    if n == 0 then []
    else Kept(s, n - 1) + (if n == 1 || s[n - 1] != s[n - 2] then [s[n - 1]] else [])
  }

  /**
   * On a sorted sequence the kept strings are strictly increasing, hold each
   * string of the sequence once, and end with the last string looked at.
   */
  lemma {:induction false} KeptUnique(s: seq<string>, n: nat)
    requires n <= |s| && Sorted(s)
    ensures StrictlySorted(Kept(s, n))
    ensures forall v :: v in Kept(s, n) <==> v in s[..n]
    ensures n > 0 ==> |Kept(s, n)| > 0 && Kept(s, n)[|Kept(s, n)| - 1] == s[n - 1]
  {
    if n > 0 {
      KeptUnique(s, n - 1);
      var before := Kept(s, n - 1);
      assert s[..n] == s[..n - 1] + [s[n - 1]];
      if n == 1 || s[n - 1] != s[n - 2] {
        forall i | 0 <= i < |before|
          ensures Below(before[i], s[n - 1]) && before[i] != s[n - 1]
        {
          assert before[i] in s[..n - 1];
          var m :| 0 <= m < n - 1 && s[m] == before[i];
          if before[i] == s[n - 1] {
            assert Below(s[m], s[n - 2]) || m == n - 2 by {
              if m < n - 2 {
                assert Below(s[m], s[n - 2]);
              }
            }
            if m < n - 2 {
              BelowAntisym(s[n - 2], s[n - 1]);
            }
            assert false;
          }
        }
      } else {
        assert s[n - 1] in s[..n - 1];
      }
    }
  }

  /** lP.uniqueValues: sorts `arr`, then keeps one copy of each string. */
  method UniqueValues(arr: array<string>) returns (result: seq<string>)
    modifies arr
    ensures Sorted(arr[..]) && multiset(arr[..]) == multiset(old(arr[..]))
    ensures result == Kept(arr[..], arr.Length)
    ensures StrictlySorted(result)
    ensures forall v :: v in result <==> v in old(arr[..])
  {
    SortStrings(arr);
    result := [];
    var i := 0;
    while i < arr.Length
      invariant 0 <= i <= arr.Length
      invariant result == Kept(arr[..], i)
    {
      if i == 0 || arr[i] != arr[i - 1] {
        result := result + [arr[i]];
      }
      i := i + 1;
    }
    KeptUnique(arr[..], arr.Length);
    assert arr[..][..arr.Length] == arr[..];
    forall v
      ensures v in arr[..] <==> v in old(arr[..])
    {
      assert v in arr[..] <==> v in multiset(arr[..]);
    }
  }

  /** The strings the source uses for the variables of `t`. */
  ghost function VarTexts(t: Term): set<string> {
    set v | v in Vars(t) :: "?" + v
  }

  /** lP.extractVariables: the variables of `t`, each once, in sorted order. */
  method ExtractVariables(t: Term) returns (r: seq<string>)
    ensures StrictlySorted(r)
    ensures forall v :: v in r <==> v in VarTexts(t)
    decreases t
  {
    var acc: seq<string> := [];
    if t.Var? {
      acc := ["?" + t.name];
    } else if t.List? {
      var i := 0;
      while i < |t.items|
        invariant i <= |t.items|
        invariant forall v :: v in acc <==> exists k :: 0 <= k < i && v in VarTexts(t.items[k])
      {
        var vars := ExtractVariables(t.items[i]);
        acc := acc + vars;
        i := i + 1;
      }
      VarTextsOfList(t.items);
    }
    var arr := new string[|acc|](k requires 0 <= k < |acc| => acc[k]);
    assert arr[..] == acc;
    r := UniqueValues(arr);
  }

  lemma VarTextsOfList(xs: seq<Term>)
    ensures forall v :: v in VarTexts(List(xs)) <==> exists k :: 0 <= k < |xs| && v in VarTexts(xs[k])
  {
  }

  /**
   * A strictly sorted sequence is fixed by the strings it holds, so the
   * contract of ExtractVariables determines its result.
   */
  lemma {:induction false} StrictlySortedUnique(a: seq<string>, b: seq<string>)
    requires StrictlySorted(a) && StrictlySorted(b)
    requires forall v :: v in a <==> v in b
    ensures a == b
    decreases |a|
  {
    if a != [] {
      assert a[0] in a;
    }
    if b != [] {
      assert b[0] in b;
    }
    if a != [] && b != [] {
      if a[0] != b[0] {
        var i :| 0 <= i < |b| && b[i] == a[0];
        var j :| 0 <= j < |a| && a[j] == b[0];
        assert i > 0 && j > 0;
        BelowAntisym(a[0], b[0]);
      }
      forall v
        ensures v in a[1..] <==> v in b[1..]
      {
        if v in a[1..] {
          var k :| 0 <= k < |a[1..]| && a[1..][k] == v;
          assert a[k + 1] == v && v != a[0] && v in a && v in b;
          var m :| 0 <= m < |b| && b[m] == v;
          assert m > 0 && b[1..][m - 1] == v;
        }
        if v in b[1..] {
          var k :| 0 <= k < |b[1..]| && b[1..][k] == v;
          assert b[k + 1] == v && v != b[0] && v in b && v in a;
          var m :| 0 <= m < |a| && a[m] == v;
          assert m > 0 && a[1..][m - 1] == v;
        }
      }
      StrictlySortedUnique(a[1..], b[1..]);
      assert a == [a[0]] + a[1..] && b == [b[0]] + b[1..];
    }
  }
}
