/**
 * Reading terms through a frame: `instantiate` (logic_programming.js:289-301)
 * and the occurs check `dependsOn` (logic_programming.js:236-252), together
 * with the fact that binding a variable the value does not depend on keeps a
 * frame acyclic.
 */
module Resolve {
  import opened Wrappers
  import opened Terms
  import opened Frames

  /**
   * instantiate: replace every bound variable by its value, recursively; an
   * unbound variable stays as it is. The result mentions no bound variable.
   */
  function Instantiate(t: Term, f: Frame): (r: Term)
    requires Acyclic(f)
    ensures Vars(r) !! Names(f)
    ensures Vars(r) <= Vars(t) + FrameVars(f)
    decreases Depth(t, f), t
  {
    match t
    case Atom(_) => t
    case Var(v) =>
      (match Lookup(f, v)
       case None => t
       case Some(u) => DepthChase(f, v, u); Instantiate(u, f))
    case List(xs) =>
      DepthItems(xs, f);
      var ys := seq(|xs|, i requires 0 <= i < |xs| => Instantiate(xs[i], f));
      assert forall i :: 0 <= i < |xs| ==> Vars(ys[i]) <= Vars(List(xs)) + FrameVars(f) by {
        forall i | 0 <= i < |xs| { VarsOfItem(xs, i); }
      }
      List(ys)
  }

  /**
   * dependsOn: does `v` occur in `t` once the bindings of `f` are followed?
   * For an unbound `v` this is exactly "v occurs in the instantiated term".
   */
  function DependsOn(t: Term, v: string, f: Frame): (r: bool)
    requires Acyclic(f)
    ensures v !in Names(f) ==> (r <==> v in Vars(Instantiate(t, f)))
    decreases Depth(t, f), t
  {
    match t
    case Atom(_) => false
    case Var(w) =>
      if w == v then true
      else
        (match Lookup(f, w)
         case None => false
         case Some(u) => DepthChase(f, w, u); DependsOn(u, v, f))
    case List(xs) =>
      DepthItems(xs, f);
      var r := exists i :: 0 <= i < |xs| && DependsOn(xs[i], v, f);
      assert v !in Names(f) ==> (r <==> v in Vars(Instantiate(t, f))) by {
        var ys := Instantiate(t, f).items;
        assert forall i :: 0 <= i < |xs| ==> ys[i] == Instantiate(xs[i], f);
        VarsList(ys, v);
      }
      r
  }

  lemma VarsList(ys: seq<Term>, v: string)
    ensures v in Vars(List(ys)) <==> exists i :: 0 <= i < |ys| && v in Vars(ys[i])
  {
  }

  /** A term none of whose variables is bound reads as itself (in particular a ground term). */
  lemma {:induction false} InstantiateFree(t: Term, f: Frame)
    requires Acyclic(f) && Vars(t) !! Names(f)
    ensures Instantiate(t, f) == t
    decreases t
  {
    match t
    case Atom(_) =>
    case Var(v) =>
    case List(xs) =>
      forall i | 0 <= i < |xs| ensures Instantiate(xs[i], f) == xs[i] {
        VarsOfItem(xs, i);
        InstantiateFree(xs[i], f);
      }
      assert Instantiate(t, f).items == xs;
  }

  lemma InstantiateGround(t: Term, f: Frame)
    requires Acyclic(f) && Ground(t)
    ensures Instantiate(t, f) == t
  {
    InstantiateFree(t, f);
  }

  /** Instantiating twice changes nothing more. */
  lemma InstantiateIdempotent(t: Term, f: Frame)
    requires Acyclic(f)
    ensures Instantiate(Instantiate(t, f), f) == Instantiate(t, f)
  {
    InstantiateFree(Instantiate(t, f), f);
  }

  /** A ground term depends on no variable, whatever the frame. */
  lemma GroundIndependent(t: Term, v: string, f: Frame)
    requires Acyclic(f) && Ground(t) && v !in Names(f)
    ensures !DependsOn(t, v, f)
  {
    InstantiateGround(t, f);
  }

  /**
   * Reading through a frame `f` and then through an extension `r` of it is the
   * same as reading through `r` at once.
   */
  lemma {:induction false} InstantiateCompose(t: Term, f: Frame, r: Frame)
    requires Acyclic(f) && Acyclic(r) && Extends(r, f)
    ensures Instantiate(Instantiate(t, f), r) == Instantiate(t, r)
    decreases Depth(t, f), t
  {
    match t
    case Atom(_) =>
    case Var(v) =>
      match Lookup(f, v) {
        case None =>
        case Some(u) =>
          ExtendsLookup(r, f, v);
          DepthChase(f, v, u);
          InstantiateCompose(u, f, r);
      }
    case List(xs) =>
      DepthItems(xs, f);
      forall i | 0 <= i < |xs|
        ensures Instantiate(Instantiate(xs[i], f), r) == Instantiate(xs[i], r)
      {
        InstantiateCompose(xs[i], f, r);
      }
      assert Instantiate(Instantiate(t, f), r).items == Instantiate(t, r).items;
  }

  // ---- Binding a variable the value does not depend on keeps a frame acyclic.

  lemma {:induction false} ClosedWithout(x: Term, f: Frame, v: string, t: Term, a: set<string>)
    requires Acyclic(f) && Closed(x, f, a) && !DependsOn(x, v, f)
    ensures Closed(x, Bind(v, t, f), a)
    decreases a, x
  {
    match x
    case Atom(_) =>
    case Var(w) =>
      match Lookup(f, w) {
        case None =>
        case Some(u) => ClosedWithout(u, f, v, t, a - {w});
      }
    case List(xs) =>
      forall i | 0 <= i < |xs| ensures Closed(xs[i], Bind(v, t, f), a) {
        ClosedWithout(xs[i], f, v, t, a);
      }
  }

  lemma {:induction false} ClosedShrink(x: Term, f: Frame, v: string, a: set<string>, b: set<string>)
    requires Acyclic(f) && Closed(x, f, b) && a <= b && !DependsOn(x, v, f)
    requires forall w | w in b - a :: DependsOn(Var(w), v, f)
    ensures Closed(x, f, a)
    decreases b, x
  {
    match x
    case Atom(_) =>
    case Var(w) =>
      match Lookup(f, w) {
        case None =>
        case Some(u) =>
          assert w in a;
          assert (b - {w}) - (a - {w}) == b - a;
          ClosedShrink(u, f, v, a - {w}, b - {w});
      }
    case List(xs) =>
      forall i | 0 <= i < |xs| ensures Closed(xs[i], f, a) {
        ClosedShrink(xs[i], f, v, a, b);
      }
  }

  lemma {:induction false} ClosedExtend(x: Term, f: Frame, v: string, t: Term, a: set<string>)
    requires Acyclic(f) && v !in Names(f) && !DependsOn(t, v, f)
    requires Closed(x, f, a) && a <= Names(f)
    requires forall w | w in Names(f) - a :: DependsOn(x, v, f) ==> DependsOn(Var(w), v, f)
    ensures Closed(x, Bind(v, t, f), a + {v})
    decreases a, x
  {
    var g := Bind(v, t, f);
    match x
    case Atom(_) =>
    case Var(w) =>
      if w == v {
        AcyclicClosed(t, f);
        ClosedShrink(t, f, v, a, Names(f));
        ClosedWithout(t, f, v, t, a);
        assert (a + {v}) - {v} == a;
      } else {
        match Lookup(f, w) {
          case None =>
          case Some(u) =>
            forall w' | w' in Names(f) - (a - {w})
              ensures DependsOn(u, v, f) ==> DependsOn(Var(w'), v, f)
            {
            }
            ClosedExtend(u, f, v, t, a - {w});
            assert (a + {v}) - {w} == (a - {w}) + {v};
        }
      }
    case List(xs) =>
      forall i | 0 <= i < |xs| ensures Closed(xs[i], g, a + {v}) {
        ClosedExtend(xs[i], f, v, t, a);
      }
  }

  /** The binding step of extendIfConsistent and extendIfPossible keeps frames acyclic. */
  lemma ExtendAcyclic(f: Frame, v: string, t: Term)
    requires Acyclic(f) && v !in Names(f) && !DependsOn(t, v, f)
    ensures Acyclic(Bind(v, t, f))
  {
    var g := Bind(v, t, f);
    assert Names(g) == Names(f) + {v};
    forall n | n in Names(g) ensures Closed(Var(n), g, Names(g)) {
      ClosedExtend(Var(n), f, v, t, Names(f));
    }
  }
}
