/**
 * One-sided pattern matching of a pattern against ground data
 * (logic_programming.js:212-234). The functions are the specification; the
 * methods follow the source's recursion and loop and are proved equal to them.
 * An absent frame (`None`) plays the part of the source's `false` frame.
 */
module Matching {
  import opened Wrappers
  import opened Terms
  import opened Frames
  import opened Resolve

  ghost predicate Usable(f: Option<Frame>) {
    f.Some? ==> Acyclic(f.value)
  }

  ghost function MatchDepth(p: Term, f: Option<Frame>): nat {
    if f.Some? then Depth(p, f.value) else 0
  }

  /**
   * patternMatch. Identical non-compound terms match without new bindings
   * (arrays are compared item by item, as `===` on two arrays of the source only
   * holds for one and the same array). On success the frame is an acyclic
   * extension of the input frame.
   */
  function Match(p: Term, d: Term, f: Option<Frame>): (r: Option<Frame>)
    requires Ground(d) && Usable(f)
    ensures r.Some? ==> f.Some? && Acyclic(r.value) && Extends(r.value, f.value)
    decreases Size(d), 1, MatchDepth(p, f), 1
  {
    if f.None? then None
    else if !p.List? && p == d then f
    else if p.Var? then ExtendMatch(p.name, d, f.value)
    else if p.List? && d.List? then
      if |p.items| != |d.items| then None
      else
        GroundItems(d.items);
        MatchItems(p.items, d.items, f)
    else None
  }

  /** The item loop of patternMatch: match item by item, threading the frame. */
  function MatchItems(ps: seq<Term>, ds: seq<Term>, f: Option<Frame>): (r: Option<Frame>)
    requires |ps| == |ds| && (forall i :: 0 <= i < |ds| ==> Ground(ds[i])) && Usable(f)
    ensures r.Some? ==> f.Some? && Acyclic(r.value) && Extends(r.value, f.value)
    decreases SizeSeq(ds), 2, 0, 0
  {
    if ps == [] then f
    else
      var g := Match(ps[0], ds[0], f);
      var r := MatchItems(ps[1..], ds[1..], g);
      assert r.Some? ==> Extends(r.value, f.value) by {
        if r.Some? { ExtendsTransitive(r.value, g.value, f.value); }
      }
      r
  }

  /** extendIfConsistent: match the value of a bound variable, bind an unbound one. */
  function ExtendMatch(v: string, d: Term, f: Frame): (r: Option<Frame>)
    requires Ground(d) && Acyclic(f)
    ensures r.Some? ==> Acyclic(r.value) && Extends(r.value, f)
    decreases Size(d), 1, Depth(Var(v), f), 0
  {
    match Lookup(f, v)
    case Some(u) =>
      DepthChase(f, v, u);
      Match(u, d, Some(f))
    case None =>
      GroundIndependent(d, v, f);
      ExtendAcyclic(f, v, d);
      Some(Bind(v, d, f))
  }

  method PatternMatch(p: Term, d: Term, frame: Option<Frame>) returns (r: Option<Frame>)
    requires Ground(d) && Usable(frame)
    ensures r == Match(p, d, frame)
    decreases Size(d), 1, MatchDepth(p, frame), 1
  {
    if frame.None? {
      return None;
    }
    if !p.List? && p == d {
      return frame;
    }
    if p.Var? {
      r := ExtendIfConsistent(p.name, d, frame.value);
      return;
    }
    if p.List? && d.List? {
      if |p.items| != |d.items| {
        return None;
      }
      GroundItems(d.items);
      var f := frame;
      var i := 0;
      while i < |p.items|
        invariant 0 <= i <= |p.items|
        invariant Usable(f)
        invariant MatchItems(p.items[i..], d.items[i..], f) == Match(p, d, frame)
      {
        assert p.items[i..][1..] == p.items[i + 1..];
        assert d.items[i..][1..] == d.items[i + 1..];
        SizeOfItem(d.items, i);
        f := PatternMatch(p.items[i], d.items[i], f);
        i := i + 1;
      }
      return f;
    }
    return None;
  }

  method ExtendIfConsistent(v: string, d: Term, f: Frame) returns (r: Option<Frame>)
    requires Ground(d) && Acyclic(f)
    ensures r == ExtendMatch(v, d, f)
    decreases Size(d), 1, Depth(Var(v), f), 0
  {
    var value := Lookup(f, v);
    if value.Some? {
      DepthChase(f, v, value.value);
      r := PatternMatch(value.value, d, Some(f));
    } else {
      r := Some(Bind(v, d, f));
    }
  }

  // ---- Properties

  /** Once a frame is absent it stays absent. */
  lemma {:induction false} MatchItemsAbsent(ps: seq<Term>, ds: seq<Term>)
    requires |ps| == |ds| && forall i :: 0 <= i < |ds| ==> Ground(ds[i])
    ensures MatchItems(ps, ds, None) == None
    decreases |ps|
  {
    if ps != [] {
      MatchItemsAbsent(ps[1..], ds[1..]);
    }
  }

  /** The failure cases of patternMatch. */
  lemma MatchFailures(p: Term, d: Term, f: Frame)
    requires Ground(d) && Acyclic(f)
    ensures Match(p, d, None) == None
    ensures p.Atom? && p != d ==> Match(p, d, Some(f)) == None
    ensures p.List? && !d.List? ==> Match(p, d, Some(f)) == None
    ensures p.List? && d.List? && |p.items| != |d.items| ==> Match(p, d, Some(f)) == None
  {
  }

  /** A successful match instantiates the pattern to the data. */
  lemma {:induction false} MatchSound(p: Term, d: Term, f: Frame)
    requires Ground(d) && Acyclic(f) && Match(p, d, Some(f)).Some?
    ensures Instantiate(p, Match(p, d, Some(f)).value) == d
    decreases Size(d), 1, Depth(p, f), 1
  {
    var r := Match(p, d, Some(f)).value;
    if !p.List? && p == d {
      InstantiateGround(d, r);
    } else if p.Var? {
      ExtendMatchSound(p.name, d, f);
    } else {
      GroundItems(d.items);
      MatchItemsSound(p.items, d.items, Some(f));
      assert Instantiate(p, r).items == d.items;
    }
  }

  lemma {:induction false} ExtendMatchSound(v: string, d: Term, f: Frame)
    requires Ground(d) && Acyclic(f) && ExtendMatch(v, d, f).Some?
    ensures Instantiate(Var(v), ExtendMatch(v, d, f).value) == d
    decreases Size(d), 1, Depth(Var(v), f), 0
  {
    var r := ExtendMatch(v, d, f).value;
    match Lookup(f, v) {
      case Some(u) =>
        DepthChase(f, v, u);
        MatchSound(u, d, f);
        ExtendsLookup(r, f, v);
      case None =>
        InstantiateGround(d, r);
    }
  }

  lemma {:induction false} MatchItemsSound(ps: seq<Term>, ds: seq<Term>, f: Option<Frame>)
    requires |ps| == |ds| && (forall i :: 0 <= i < |ds| ==> Ground(ds[i])) && Usable(f)
    requires MatchItems(ps, ds, f).Some?
    ensures forall i :: 0 <= i < |ps| ==> Instantiate(ps[i], MatchItems(ps, ds, f).value) == ds[i]
    decreases SizeSeq(ds), 2, 0, 0
  {
    if ps != [] {
      var r := MatchItems(ps, ds, f).value;
      var g := Match(ps[0], ds[0], f);
      assert SizeSeq(ds) == Size(ds[0]) + SizeSeq(ds[1..]);
      MatchItemsSound(ps[1..], ds[1..], g);
      MatchSound(ps[0], ds[0], f.value);
      InstantiateCompose(ps[0], g.value, r);
      InstantiateGround(ds[0], r);
      forall i | 1 <= i < |ps| ensures Instantiate(ps[i], r) == ds[i] {
        assert ps[i] == ps[1..][i - 1] && ds[i] == ds[1..][i - 1];
      }
    }
  }

  /** `g` satisfies every binding of `f` as an equation between instantiated terms. */
  ghost predicate Solves(g: Frame, f: Frame)
    requires Acyclic(g)
  {
    forall w | w in Names(f) :: Instantiate(Var(w), g) == Instantiate(Lookup(f, w).value, g)
  }

  /** A frame grown from `f` keeps its bindings, so it satisfies them. */
  lemma ExtendsSolves(g: Frame, f: Frame)
    requires Acyclic(g) && Extends(g, f)
    ensures Solves(g, f)
  {
    forall w | w in Names(f) ensures Instantiate(Var(w), g) == Instantiate(Lookup(f, w).value, g) {
      ExtendsLookup(g, f, w);
    }
  }

  /**
   * Matching fails only when equating is impossible: if some frame satisfying
   * the bindings of `f` instantiates the pattern to the data, matching
   * succeeds, and that frame also satisfies the bindings of the result.
   */
  lemma {:induction false} MatchComplete(p: Term, d: Term, f: Frame, g: Frame)
    requires Ground(d) && Acyclic(f) && Acyclic(g) && Solves(g, f) && Instantiate(p, g) == d
    ensures Match(p, d, Some(f)).Some? && Solves(g, Match(p, d, Some(f)).value)
    decreases Size(d), 1, Depth(p, f), 1
  {
    if !p.List? && p == d {
    } else if p.Var? {
      match Lookup(f, p.name) {
        case Some(u) =>
          DepthChase(f, p.name, u);
          MatchComplete(u, d, f, g);
        case None =>
          var r := Bind(p.name, d, f);
          forall w | w in Names(r) ensures Instantiate(Var(w), g) == Instantiate(Lookup(r, w).value, g) {
            if w == p.name {
              InstantiateGround(d, g);
            }
          }
      }
    } else {
      assert p.List? && d.List? && |d.items| == |p.items|;
      assert forall i :: 0 <= i < |p.items| ==> Instantiate(p.items[i], g) == d.items[i];
      GroundItems(d.items);
      MatchItemsComplete(p.items, d.items, f, g);
    }
  }

  lemma {:induction false} MatchItemsComplete(ps: seq<Term>, ds: seq<Term>, f: Frame, g: Frame)
    requires |ps| == |ds| && (forall i :: 0 <= i < |ds| ==> Ground(ds[i]))
    requires Acyclic(f) && Acyclic(g) && Solves(g, f)
    requires forall i :: 0 <= i < |ps| ==> Instantiate(ps[i], g) == ds[i]
    ensures MatchItems(ps, ds, Some(f)).Some? && Solves(g, MatchItems(ps, ds, Some(f)).value)
    decreases SizeSeq(ds), 2, 0, 0
  {
    if ps != [] {
      assert SizeSeq(ds) == Size(ds[0]) + SizeSeq(ds[1..]);
      MatchComplete(ps[0], ds[0], f, g);
      var h := Match(ps[0], ds[0], Some(f)).value;
      forall i | 0 <= i < |ps[1..]| ensures Instantiate(ps[1..][i], g) == ds[1..][i] {
        assert ps[1..][i] == ps[i + 1];
      }
      MatchItemsComplete(ps[1..], ds[1..], h, g);
    }
  }

  /** The pattern and the data can be equated by a frame grown from `f`. */
  ghost predicate Equates(p: Term, d: Term, f: Frame, g: Frame) {
    Acyclic(g) && Extends(g, f) && Instantiate(p, g) == d
  }

  /**
   * patternMatch returns a frame exactly when the pattern and the data can be
   * equated, and `false` when equating is impossible.
   */
  lemma MatchIff(p: Term, d: Term, f: Frame)
    requires Ground(d) && Acyclic(f)
    ensures Match(p, d, Some(f)).Some? <==> exists g :: Equates(p, d, f, g)
  {
    if Match(p, d, Some(f)).Some? {
      MatchSound(p, d, f);
      assert Equates(p, d, f, Match(p, d, Some(f)).value);
    }
    if exists g :: Equates(p, d, f, g) {
      var g :| Equates(p, d, f, g);
      ExtendsSolves(g, f);
      MatchComplete(p, d, f, g);
    }
  }

  /** Matching keeps every binding of the input frame. */
  lemma MatchKeepsBindings(p: Term, d: Term, f: Frame, v: string)
    requires Ground(d) && Acyclic(f) && Match(p, d, Some(f)).Some? && v in Names(f)
    ensures Lookup(Match(p, d, Some(f)).value, v) == Lookup(f, v)
  {
    ExtendsLookup(Match(p, d, Some(f)).value, f, v);
  }

  /** Ground data matches itself without new bindings, so comparing arrays by identity changes nothing. */
  lemma {:induction false} MatchSelf(d: Term, f: Frame)
    requires Ground(d) && Acyclic(f)
    ensures Match(d, d, Some(f)) == Some(f)
    decreases Size(d), 1
  {
    if d.List? {
      GroundItems(d.items);
      MatchItemsSelf(d.items, f);
    }
  }

  lemma {:induction false} MatchItemsSelf(ds: seq<Term>, f: Frame)
    requires (forall i :: 0 <= i < |ds| ==> Ground(ds[i])) && Acyclic(f)
    ensures MatchItems(ds, ds, Some(f)) == Some(f)
    decreases SizeSeq(ds), 2
  {
    if ds != [] {
      MatchSelf(ds[0], f);
      MatchItemsSelf(ds[1..], f);
    }
  }
}
