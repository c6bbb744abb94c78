/**
 * Terms of the query language. In the source a term is a string or an array:
 * a string starting with `?` is a variable, any other string is an atom, and
 * an array of terms is a compound whose first item conventionally names the
 * relation (logic_programming.js:176-209, 495-508). Here the three cases are
 * tagged; a variable keeps its name without the `?` sigil.
 */
module Terms {

  datatype Term = Atom(name: string) | Var(name: string) | List(items: seq<Term>)

  /** The test `isVariable` applies to a string of the source. */
  predicate IsVariableText(s: string) {
    |s| > 0 && s[0] == '?'
  }

  /** The term a string of the source stands for. */
  function FromText(s: string): (t: Term)
    ensures t.Var? <==> IsVariableText(s)
    ensures t.Var? ==> "?" + t.name == s
    ensures t.Atom? ==> t.name == s
  {
    if IsVariableText(s) then Var(s[1..]) else Atom(s)
  }

  /** The names of the variables occurring in `t`. */
  ghost function Vars(t: Term): set<string> {
    match t
    case Atom(_) => {}
    case Var(v) => {v}
    case List(xs) => set i, v | 0 <= i < |xs| && v in Vars(xs[i]) :: v
  }

  /** A term without variables. */
  ghost predicate Ground(t: Term) {
    Vars(t) == {}
  }

  lemma VarsOfItem(xs: seq<Term>, i: int)
    requires 0 <= i < |xs|
    ensures Vars(xs[i]) <= Vars(List(xs))
  {
  }

  lemma VarsOfTail(xs: seq<Term>)
    requires xs != []
    ensures Vars(List(xs[1..])) <= Vars(List(xs))
  {
    forall v | v in Vars(List(xs[1..])) ensures v in Vars(List(xs)) {
      var i :| 0 <= i < |xs[1..]| && v in Vars(xs[1..][i]);
      assert xs[1..][i] == xs[i + 1];
    }
  }

  lemma GroundItems(xs: seq<Term>)
    requires Ground(List(xs))
    ensures forall i :: 0 <= i < |xs| ==> Ground(xs[i])
  {
    forall i | 0 <= i < |xs| ensures Ground(xs[i]) {
      VarsOfItem(xs, i);
    }
  }

  /** The number of nodes of a term; a measure for recursions on the data side. */
  function Size(t: Term): nat {
    match t
    case List(xs) => 1 + SizeSeq(xs)
    case _ => 1
  }

  function SizeSeq(xs: seq<Term>): nat {
    if xs == [] then 0 else Size(xs[0]) + SizeSeq(xs[1..])
  }

  lemma {:induction false} SizeOfItem(xs: seq<Term>, i: int)
    requires 0 <= i < |xs|
    ensures Size(xs[i]) <= SizeSeq(xs)
    ensures Size(xs[i]) < Size(List(xs))
  {
    if i > 0 {
      SizeOfItem(xs[1..], i - 1);
    }
  }

  lemma {:induction false} SubsetCard<T>(a: set<T>, b: set<T>)
    requires a <= b
    ensures |a| <= |b|
    ensures a < b ==> |a| < |b|
  {
    if a != {} {
      var x :| x in a;
      SubsetCard(a - {x}, b - {x});
    }
  }

  /** The largest element of a sequence of naturals (0 for the empty one). */
  function MaxOf(s: seq<nat>): (m: nat)
    ensures forall i :: 0 <= i < |s| ==> s[i] <= m
    ensures s != [] ==> exists i :: 0 <= i < |s| && s[i] == m
  {
    if s == [] then 0
    else
      var rest := MaxOf(s[1..]);
      if s[0] >= rest then s[0] else rest
  }

  lemma MaxOfBounded(s: seq<nat>, bound: nat)
    requires forall i :: 0 <= i < |s| ==> s[i] <= bound
    ensures MaxOf(s) <= bound
  {
  }
}
