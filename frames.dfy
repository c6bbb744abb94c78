/**
 * Frames: the chains of variable bindings of logic_programming.js:41-67.
 * `Empty` is EMPTY_FRAME; `Bind(name, value, parent)` is `new Frame(name, value, parent)`.
 *
 * The ghost part of this module gives a frame a well-founded structure: a frame
 * is acyclic when chasing bindings from any bound variable terminates. Every
 * frame that pattern matching and unification build is acyclic, and the
 * recursions that chase bindings (instantiate, dependsOn, patternMatch,
 * unifyMatch) decrease the chase depth `Depth`.
 */
module Frames {
  import opened Wrappers
  import opened Terms

  datatype Frame = Empty | Bind(name: string, value: Term, parent: Frame)

  /** The variables a frame binds. */
  ghost function Names(f: Frame): set<string> {
    match f
    case Empty => {}
    case Bind(n, _, p) => {n} + Names(p)
  }

  /** Every variable a frame mentions, bound or occurring in a value. */
  ghost function FrameVars(f: Frame): set<string> {
    match f
    case Empty => {}
    case Bind(n, t, p) => {n} + Vars(t) + FrameVars(p)
  }

  /** Frame.lookup: the value of the innermost binding of `v`. */
  function Lookup(f: Frame, v: string): (r: Option<Term>)
    ensures r.Some? <==> v in Names(f)
    ensures r.Some? ==> Vars(r.value) <= FrameVars(f)
  {
    match f
    case Empty => None
    case Bind(n, t, p) => if n == v then Some(t) else Lookup(p, v)
  }

  lemma NamesInFrameVars(f: Frame)
    ensures Names(f) <= FrameVars(f)
  {
  }

  /**
   * `r` is `f` with zero or more bindings of previously unbound variables put
   * in front: the only way matching and unification grow a frame.
   */
  ghost predicate Extends(r: Frame, f: Frame) {
    r == f || (r.Bind? && r.name !in Names(r.parent) && Extends(r.parent, f))
  }

  lemma {:induction false} ExtendsLookup(r: Frame, f: Frame, v: string)
    requires Extends(r, f) && v in Names(f)
    ensures Lookup(r, v) == Lookup(f, v)
  {
    if r != f {
      ExtendsNames(r.parent, f);
      ExtendsLookup(r.parent, f, v);
    }
  }

  lemma {:induction false} ExtendsNames(r: Frame, f: Frame)
    requires Extends(r, f)
    ensures Names(f) <= Names(r)
    ensures FrameVars(f) <= FrameVars(r)
    ensures Names(r) == Names(f) ==> r == f
  {
    if r != f {
      ExtendsNames(r.parent, f);
    }
  }

  lemma {:induction false} ExtendsTransitive(a: Frame, b: Frame, c: Frame)
    requires Extends(a, b) && Extends(b, c)
    ensures Extends(a, c)
  {
    if a != b {
      ExtendsTransitive(a.parent, b, c);
    }
  }

  /**
   * Chasing the bindings reachable from `t` terminates inside `avail`: every
   * bound variable met is in `avail` and is not met again below its own value.
   */
  ghost predicate Closed(t: Term, f: Frame, avail: set<string>)
    decreases avail, t
  {
    match t
    case Atom(_) => true
    case Var(v) =>
      (match Lookup(f, v)
       case None => true
       case Some(u) => v in avail && Closed(u, f, avail - {v}))
    case List(xs) => forall i :: 0 <= i < |xs| ==> Closed(xs[i], f, avail)
  }

  ghost predicate Acyclic(f: Frame) {
    forall v | v in Names(f) :: Closed(Var(v), f, Names(f))
  }

  /** The length of the longest binding chain reachable from `t`. */
  ghost function DepthIn(t: Term, f: Frame, avail: set<string>): nat
    decreases avail, t
  {
    match t
    case Atom(_) => 0
    case Var(v) =>
      (match Lookup(f, v)
       case None => 0
       case Some(u) => if v in avail then 1 + DepthIn(u, f, avail - {v}) else 0)
    case List(xs) => MaxOf(seq(|xs|, i requires 0 <= i < |xs| => DepthIn(xs[i], f, avail)))
  }

  ghost function Depth(t: Term, f: Frame): nat {
    DepthIn(t, f, Names(f))
  }

  lemma {:induction false} ClosedMono(t: Term, f: Frame, a: set<string>, b: set<string>)
    requires Closed(t, f, a) && a <= b
    ensures Closed(t, f, b)
    decreases a, t
  {
    match t
    case Atom(_) =>
    case Var(v) =>
      match Lookup(f, v) {
        case None =>
        case Some(u) => ClosedMono(u, f, a - {v}, b - {v});
      }
    case List(xs) =>
      forall i | 0 <= i < |xs| ensures Closed(xs[i], f, b) {
        ClosedMono(xs[i], f, a, b);
      }
  }

  /** Under an acyclic frame every term is closed. */
  lemma {:induction false} AcyclicClosed(t: Term, f: Frame)
    requires Acyclic(f)
    ensures Closed(t, f, Names(f))
  {
    match t
    case Atom(_) =>
    case Var(v) =>
    case List(xs) =>
      forall i | 0 <= i < |xs| ensures Closed(xs[i], f, Names(f)) {
        AcyclicClosed(xs[i], f);
      }
  }

  /** Once the chase closes inside `a`, a larger budget does not change its depth. */
  lemma {:induction false} DepthIrrelevant(t: Term, f: Frame, a: set<string>, b: set<string>)
    requires Closed(t, f, a) && a <= b
    ensures DepthIn(t, f, a) == DepthIn(t, f, b)
    decreases a, t
  {
    match t
    case Atom(_) =>
    case Var(v) =>
      match Lookup(f, v) {
        case None =>
        case Some(u) => DepthIrrelevant(u, f, a - {v}, b - {v});
      }
    case List(xs) =>
      var da := seq(|xs|, i requires 0 <= i < |xs| => DepthIn(xs[i], f, a));
      var db := seq(|xs|, i requires 0 <= i < |xs| => DepthIn(xs[i], f, b));
      forall i | 0 <= i < |xs| ensures da[i] == db[i] {
        DepthIrrelevant(xs[i], f, a, b);
      }
      assert da == db;
  }

  /** Chasing one binding strictly lowers the depth. */
  lemma DepthChase(f: Frame, v: string, u: Term)
    requires Acyclic(f) && Lookup(f, v) == Some(u)
    ensures Depth(u, f) < Depth(Var(v), f)
  {
    assert Closed(Var(v), f, Names(f));
    DepthIrrelevant(u, f, Names(f) - {v}, Names(f));
  }

  /** The items of a compound are no deeper than the compound. */
  lemma DepthItems(xs: seq<Term>, f: Frame)
    ensures forall i :: 0 <= i < |xs| ==> Depth(xs[i], f) <= Depth(List(xs), f)
  {
    var ds := seq(|xs|, i requires 0 <= i < |xs| => DepthIn(xs[i], f, Names(f)));
    assert forall i :: 0 <= i < |xs| ==> ds[i] == Depth(xs[i], f);
  }

  /** Dropping the first item of a compound does not deepen it. */
  lemma DepthTail(xs: seq<Term>, f: Frame)
    requires xs != []
    ensures Depth(List(xs[1..]), f) <= Depth(List(xs), f)
  {
    DepthItems(xs, f);
    var ys := xs[1..];
    var ds := seq(|ys|, i requires 0 <= i < |ys| => DepthIn(ys[i], f, Names(f)));
    forall i | 0 <= i < |ds| ensures ds[i] <= Depth(List(xs), f) {
      assert ys[i] == xs[i + 1];
    }
    MaxOfBounded(ds, Depth(List(xs), f));
  }
}
