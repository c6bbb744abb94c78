/**
 * Unification of two patterns that may both hold variables
 * (logic_programming.js:254-287), with the occurs check of dependsOn.
 * Termination rests on three measures: the number of variables not yet bound,
 * the binding-chase depth of the two sides, and their size.
 */
module Unification {
  import opened Wrappers
  import opened Terms
  import opened Frames
  import opened Resolve
  import opened Matching

  /** The variables mentioned by the two sides or the frame that the frame does not bind. */
  ghost function Unbound(p1: Term, p2: Term, f: Frame): set<string> {
    (Vars(p1) + Vars(p2) + FrameVars(f)) - Names(f)
  }

  ghost function UnboundCount(p1: Term, p2: Term, f: Option<Frame>): nat {
    if f.Some? then |Unbound(p1, p2, f.value)| else 0
  }

  ghost function DepthSum(p1: Term, p2: Term, f: Option<Frame>): nat {
    if f.Some? then Depth(p1, f.value) + Depth(p2, f.value) else 0
  }

  /**
   * unifyMatch. On success the frame is an acyclic extension of the input frame
   * that binds only variables of the two sides or of the frame.
   */
  function Unify(p1: Term, p2: Term, f: Option<Frame>): (r: Option<Frame>)
    requires Usable(f)
    ensures r.Some? ==> f.Some? && Acyclic(r.value) && Extends(r.value, f.value)
    ensures r.Some? ==> FrameVars(r.value) <= Vars(p1) + Vars(p2) + FrameVars(f.value)
    decreases UnboundCount(p1, p2, f), DepthSum(p1, p2, f), Size(p1) + Size(p2), 1
  {
    if f.None? then None
    else if !p1.List? && p1 == p2 then f
    else if p1.Var? then ExtendUnify(p1.name, p2, f.value)
    else if p2.Var? then
      assert Unbound(p2, p1, f.value) == Unbound(p1, p2, f.value);
      ExtendUnify(p2.name, p1, f.value)
    else if p1.List? && p2.List? then
      if |p1.items| != |p2.items| then None
      else UnifyItems(p1.items, p2.items, f)
    else None
  }

  /** The item loop of unifyMatch. */
  function UnifyItems(xs: seq<Term>, ys: seq<Term>, f: Option<Frame>): (r: Option<Frame>)
    requires |xs| == |ys| && Usable(f)
    ensures r.Some? ==> f.Some? && Acyclic(r.value) && Extends(r.value, f.value)
    ensures r.Some? ==> FrameVars(r.value) <= Vars(List(xs)) + Vars(List(ys)) + FrameVars(f.value)
    decreases UnboundCount(List(xs), List(ys), f), DepthSum(List(xs), List(ys), f), SizeSeq(xs) + SizeSeq(ys), 2
  {
    if xs == [] then f
    else
      HeadMeasure(xs, ys, f);
      var g := Unify(xs[0], ys[0], f);
      TailMeasure(xs, ys, f, g);
      var r := UnifyItems(xs[1..], ys[1..], g);
      if r.Some? then
        ItemsResult(xs, ys, f.value, g.value, r.value);
        r
      else r
  }

  /** What the item loop delivers after its first step, in terms of the frame it started from. */
  lemma ItemsResult(xs: seq<Term>, ys: seq<Term>, f: Frame, g: Frame, r: Frame)
    requires |xs| == |ys| && xs != []
    requires Extends(g, f) && FrameVars(g) <= Vars(xs[0]) + Vars(ys[0]) + FrameVars(f)
    requires Extends(r, g) && FrameVars(r) <= Vars(List(xs[1..])) + Vars(List(ys[1..])) + FrameVars(g)
    ensures Extends(r, f) && FrameVars(r) <= Vars(List(xs)) + Vars(List(ys)) + FrameVars(f)
  {
    ExtendsTransitive(r, g, f);
    VarsOfTail(xs);
    VarsOfTail(ys);
    VarsOfItem(xs, 0);
    VarsOfItem(ys, 0);
  }

  /**
   * extendIfPossible: chase a bound variable, chase a bound variable value,
   * bind the variable to an unbound variable, or bind it to a non-variable
   * term unless the occurs check fails. Its only caller never passes a
   * variable together with itself.
   */
  function ExtendUnify(v: string, val: Term, f: Frame): (r: Option<Frame>)
    requires Acyclic(f) && val != Var(v)
    ensures r.Some? ==> Acyclic(r.value) && Extends(r.value, f)
    ensures r.Some? ==> FrameVars(r.value) <= {v} + Vars(val) + FrameVars(f)
    decreases UnboundCount(Var(v), val, Some(f)), DepthSum(Var(v), val, Some(f)), 1 + Size(val), 0
  {
    var value1 := Lookup(f, v);
    if value1.Some? then
      DepthChase(f, v, value1.value);
      SubsetCard(Unbound(value1.value, val, f), Unbound(Var(v), val, f));
      Unify(value1.value, val, Some(f))
    else if val.Var? then
      var value2 := Lookup(f, val.name);
      if value2.Some? then
        DepthChase(f, val.name, value2.value);
        SubsetCard(Unbound(value2.value, Var(v), f), Unbound(Var(v), val, f));
        Unify(value2.value, Var(v), Some(f))
      else
        ExtendAcyclic(f, v, val);
        Some(Bind(v, val, f))
    else if DependsOn(val, v, f) then None
    else
      ExtendAcyclic(f, v, val);
      Some(Bind(v, val, f))
  }

  lemma HeadMeasure(xs: seq<Term>, ys: seq<Term>, f: Option<Frame>)
    requires xs != [] && ys != [] && Usable(f)
    ensures UnboundCount(xs[0], ys[0], f) <= UnboundCount(List(xs), List(ys), f)
    ensures DepthSum(xs[0], ys[0], f) <= DepthSum(List(xs), List(ys), f)
    ensures Size(xs[0]) + Size(ys[0]) <= SizeSeq(xs) + SizeSeq(ys)
  {
    if f.Some? {
      VarsOfItem(xs, 0);
      VarsOfItem(ys, 0);
      SubsetCard(Unbound(xs[0], ys[0], f.value), Unbound(List(xs), List(ys), f.value));
      DepthItems(xs, f.value);
      DepthItems(ys, f.value);
    }
  }

  /** Binding variables of the first items removes them from the unbound variables of the rest. */
  lemma UnboundShrinks(xs: seq<Term>, ys: seq<Term>, f: Frame, g: Frame)
    requires xs != [] && ys != [] && Extends(g, f)
    requires FrameVars(g) <= Vars(xs[0]) + Vars(ys[0]) + FrameVars(f)
    ensures Unbound(List(xs[1..]), List(ys[1..]), g) <= Unbound(List(xs), List(ys), f)
    ensures g != f ==> Unbound(List(xs[1..]), List(ys[1..]), g) < Unbound(List(xs), List(ys), f)
  {
    var a := Unbound(List(xs[1..]), List(ys[1..]), g);
    var b := Unbound(List(xs), List(ys), f);
    VarsOfTail(xs);
    VarsOfTail(ys);
    VarsOfItem(xs, 0);
    VarsOfItem(ys, 0);
    ExtendsNames(g, f);
    assert a <= b;
    if g != f {
      assert Names(g) - Names(f) != {};
      var n :| n in Names(g) - Names(f);
      NamesInFrameVars(g);
      assert n in b;
    }
  }

  /** After the first items are unified, the rest of the loop is smaller. */
  lemma TailMeasure(xs: seq<Term>, ys: seq<Term>, f: Option<Frame>, g: Option<Frame>)
    requires xs != [] && ys != [] && Usable(f)
    requires g.Some? ==> f.Some? && Extends(g.value, f.value)
    requires g.Some? ==> FrameVars(g.value) <= Vars(xs[0]) + Vars(ys[0]) + FrameVars(f.value)
    ensures UnboundCount(List(xs[1..]), List(ys[1..]), g) <= UnboundCount(List(xs), List(ys), f)
    ensures g != f && g.Some? ==>
              UnboundCount(List(xs[1..]), List(ys[1..]), g) < UnboundCount(List(xs), List(ys), f)
    ensures g.None? ==> DepthSum(List(xs[1..]), List(ys[1..]), g) == 0
    ensures g == f ==> DepthSum(List(xs[1..]), List(ys[1..]), g) <= DepthSum(List(xs), List(ys), f)
  {
    if g.Some? {
      UnboundShrinks(xs, ys, f.value, g.value);
      SubsetCard(Unbound(List(xs[1..]), List(ys[1..]), g.value), Unbound(List(xs), List(ys), f.value));
      if g == f {
        DepthTail(xs, f.value);
        DepthTail(ys, f.value);
      }
    }
  }

  /** The rest of the item loop is no larger than the whole unification it belongs to. */
  ghost predicate Below(xs: seq<Term>, ys: seq<Term>, f: Option<Frame>, p1: Term, p2: Term, frame: Option<Frame>) {
    var u := UnboundCount(List(xs), List(ys), f);
    var u0 := UnboundCount(p1, p2, frame);
    u < u0 || (u == u0 && DepthSum(List(xs), List(ys), f) <= DepthSum(p1, p2, frame))
  }

  lemma CallBelow(xs: seq<Term>, ys: seq<Term>, i: nat, f: Option<Frame>, frame: Option<Frame>)
    requires i < |xs| == |ys| && Usable(f) && Usable(frame)
    requires Below(xs[i..], ys[i..], f, List(xs), List(ys), frame)
    ensures var u, u0 := UnboundCount(xs[i], ys[i], f), UnboundCount(List(xs), List(ys), frame);
            var d, d0 := DepthSum(xs[i], ys[i], f), DepthSum(List(xs), List(ys), frame);
            u < u0 || (u == u0 && (d < d0 || (d == d0 && Size(xs[i]) + Size(ys[i]) < Size(List(xs)) + Size(List(ys)))))
  {
    HeadMeasure(xs[i..], ys[i..], f);
    assert xs[i..][0] == xs[i] && ys[i..][0] == ys[i];
    SizeOfItem(xs, i);
    SizeOfItem(ys, i);
  }

  /** One step of the item loop. */
  lemma ItemsStep(xs: seq<Term>, ys: seq<Term>, i: nat, f: Option<Frame>, g: Option<Frame>)
    requires i < |xs| == |ys| && Usable(f) && g == Unify(xs[i], ys[i], f)
    ensures UnifyItems(xs[i..], ys[i..], f) == UnifyItems(xs[i + 1..], ys[i + 1..], g)
  {
    assert xs[i..][0] == xs[i] && ys[i..][0] == ys[i];
    assert xs[i..][1..] == xs[i + 1..] && ys[i..][1..] == ys[i + 1..];
  }

  lemma StepBelow(xs: seq<Term>, ys: seq<Term>, i: nat, f: Option<Frame>, g: Option<Frame>, frame: Option<Frame>)
    requires i < |xs| == |ys| && Usable(f) && Usable(frame)
    requires Below(xs[i..], ys[i..], f, List(xs), List(ys), frame)
    requires g == Unify(xs[i], ys[i], f)
    ensures Below(xs[i + 1..], ys[i + 1..], g, List(xs), List(ys), frame)
  {
    assert xs[i..][0] == xs[i] && ys[i..][0] == ys[i];
    assert xs[i..][1..] == xs[i + 1..] && ys[i..][1..] == ys[i + 1..];
    TailMeasure(xs[i..], ys[i..], f, g);
  }

  // ---- The source's procedures, proved equal to the functions above

  method UnifyMatch(p1: Term, p2: Term, frame: Option<Frame>) returns (r: Option<Frame>)
    requires Usable(frame)
    ensures r == Unify(p1, p2, frame)
    decreases UnboundCount(p1, p2, frame), DepthSum(p1, p2, frame), Size(p1) + Size(p2), 1
  {
    if frame.None? {
      return None;
    }
    if !p1.List? && p1 == p2 {
      return frame;
    }
    if p1.Var? {
      r := ExtendIfPossible(p1.name, p2, frame.value);
      return;
    }
    if p2.Var? {
      assert Unbound(p2, p1, frame.value) == Unbound(p1, p2, frame.value);
      r := ExtendIfPossible(p2.name, p1, frame.value);
      return;
    }
    if p1.List? && p2.List? {
      if |p1.items| != |p2.items| {
        return None;
      }
      r := UnifyListMatch(p1, p2, frame);
      return;
    }
    return None;
  }

  /** The item loop of unifyMatch, for two lists of the same length. */
  method UnifyListMatch(p1: Term, p2: Term, frame: Option<Frame>) returns (r: Option<Frame>)
    requires Usable(frame) && frame.Some? && p1.List? && p2.List? && |p1.items| == |p2.items|
    ensures r == Unify(p1, p2, frame)
    decreases UnboundCount(p1, p2, frame), DepthSum(p1, p2, frame), Size(p1) + Size(p2), 0
  {
    var xs, ys := p1.items, p2.items;
    var f := frame;
    var i := 0;
    assert xs[0..] == xs && ys[0..] == ys;
    assert Unify(p1, p2, frame) == UnifyItems(xs, ys, frame);
    while i < |xs|
      invariant 0 <= i <= |xs|
      invariant Usable(f)
      invariant UnifyItems(xs[i..], ys[i..], f) == Unify(p1, p2, frame)
      invariant Below(xs[i..], ys[i..], f, p1, p2, frame)
    {
      ghost var g := f;
      CallBelow(xs, ys, i, f, frame);
      f := UnifyMatch(xs[i], ys[i], f);
      StepBelow(xs, ys, i, g, f, frame);
      ItemsStep(xs, ys, i, g, f);
      i := i + 1;
    }
    return f;
  }

  method ExtendIfPossible(v: string, val: Term, f: Frame) returns (r: Option<Frame>)
    requires Acyclic(f) && val != Var(v)
    ensures r == ExtendUnify(v, val, f)
    decreases UnboundCount(Var(v), val, Some(f)), DepthSum(Var(v), val, Some(f)), 1 + Size(val), 0
  {
    var value1 := Lookup(f, v);
    if value1.Some? {
      DepthChase(f, v, value1.value);
      SubsetCard(Unbound(value1.value, val, f), Unbound(Var(v), val, f));
      r := UnifyMatch(value1.value, val, Some(f));
      return;
    }
    if val.Var? {
      var value2 := Lookup(f, val.name);
      if value2.Some? {
        DepthChase(f, val.name, value2.value);
        SubsetCard(Unbound(value2.value, Var(v), f), Unbound(Var(v), val, f));
        r := UnifyMatch(value2.value, Var(v), Some(f));
        return;
      }
      return Some(Bind(v, val, f));
    }
    if DependsOn(val, v, f) {
      return None;
    }
    return Some(Bind(v, val, f));
  }

  // ---- Properties

  /** A successful unification equates the two sides once both are instantiated. */
  lemma {:induction false} UnifySound(p1: Term, p2: Term, f: Frame)
    requires Acyclic(f) && Unify(p1, p2, Some(f)).Some?
    ensures Instantiate(p1, Unify(p1, p2, Some(f)).value) == Instantiate(p2, Unify(p1, p2, Some(f)).value)
    decreases UnboundCount(p1, p2, Some(f)), DepthSum(p1, p2, Some(f)), Size(p1) + Size(p2), 2
  {
    if !p1.List? && p1 == p2 {
    } else if p1.Var? {
      UnifyLeftVarSound(p1, p2, f);
    } else if p2.Var? {
      UnifyRightVarSound(p1, p2, f);
    } else {
      UnifyListSound(p1, p2, f);
    }
  }

  /** The case of UnifySound where the left side is a variable other than the right side. */
  lemma {:induction false} UnifyLeftVarSound(p1: Term, p2: Term, f: Frame)
    requires Acyclic(f) && p1.Var? && p1 != p2 && Unify(p1, p2, Some(f)).Some?
    ensures Instantiate(p1, Unify(p1, p2, Some(f)).value) == Instantiate(p2, Unify(p1, p2, Some(f)).value)
    decreases UnboundCount(p1, p2, Some(f)), DepthSum(p1, p2, Some(f)), Size(p1) + Size(p2), 1
  {
    ExtendUnifySound(p1.name, p2, f);
  }

  /** The case of UnifySound where only the right side is a variable. */
  lemma {:induction false} UnifyRightVarSound(p1: Term, p2: Term, f: Frame)
    requires Acyclic(f) && !p1.Var? && p2.Var? && p1 != p2 && Unify(p1, p2, Some(f)).Some?
    ensures Instantiate(p1, Unify(p1, p2, Some(f)).value) == Instantiate(p2, Unify(p1, p2, Some(f)).value)
    decreases UnboundCount(p1, p2, Some(f)), DepthSum(p1, p2, Some(f)), Size(p1) + Size(p2), 1
  {
    assert Unbound(p2, p1, f) == Unbound(p1, p2, f);
    ExtendUnifySound(p2.name, p1, f);
  }

  /** The case of UnifySound for two arrays: equal items give equal arrays. */
  lemma {:induction false} UnifyListSound(p1: Term, p2: Term, f: Frame)
    requires Acyclic(f) && p1.List? && p2.List? && Unify(p1, p2, Some(f)).Some?
    ensures Instantiate(p1, Unify(p1, p2, Some(f)).value) == Instantiate(p2, Unify(p1, p2, Some(f)).value)
    decreases UnboundCount(p1, p2, Some(f)), DepthSum(p1, p2, Some(f)), Size(p1) + Size(p2), 1
  {
    if p1 != p2 {
      var xs, ys := p1.items, p2.items;
      assert |xs| == |ys|;
      assert Unify(p1, p2, Some(f)) == UnifyItems(xs, ys, Some(f));
      var r := UnifyItems(xs, ys, Some(f)).value;
      UnifyItemsSound(xs, ys, Some(f));
      ItemsEqual(xs, ys, r);
    }
  }

  /** Arrays whose items instantiate pairwise to the same terms instantiate to the same term. */
  lemma ItemsEqual(xs: seq<Term>, ys: seq<Term>, r: Frame)
    requires Acyclic(r) && |xs| == |ys|
    requires forall i :: 0 <= i < |xs| ==> Instantiate(xs[i], r) == Instantiate(ys[i], r)
    ensures Instantiate(List(xs), r) == Instantiate(List(ys), r)
  {
    assert Instantiate(List(xs), r).items == Instantiate(List(ys), r).items;
  }

  lemma {:induction false} ExtendUnifySound(v: string, val: Term, f: Frame)
    requires Acyclic(f) && val != Var(v) && ExtendUnify(v, val, f).Some?
    ensures Instantiate(Var(v), ExtendUnify(v, val, f).value) == Instantiate(val, ExtendUnify(v, val, f).value)
    decreases UnboundCount(Var(v), val, Some(f)), DepthSum(Var(v), val, Some(f)), 1 + Size(val), 0
  {
    var r := ExtendUnify(v, val, f).value;
    var value1 := Lookup(f, v);
    if value1.Some? {
      DepthChase(f, v, value1.value);
      SubsetCard(Unbound(value1.value, val, f), Unbound(Var(v), val, f));
      UnifySound(value1.value, val, f);
      ExtendsLookup(r, f, v);
    } else if val.Var? && Lookup(f, val.name).Some? {
      var value2 := Lookup(f, val.name).value;
      DepthChase(f, val.name, value2);
      SubsetCard(Unbound(value2, Var(v), f), Unbound(Var(v), val, f));
      UnifySound(value2, Var(v), f);
      ExtendsLookup(r, f, val.name);
    }
  }

  lemma {:induction false} UnifyItemsSound(xs: seq<Term>, ys: seq<Term>, f: Option<Frame>)
    requires |xs| == |ys| && Usable(f) && UnifyItems(xs, ys, f).Some?
    ensures forall i :: 0 <= i < |xs| ==>
              Instantiate(xs[i], UnifyItems(xs, ys, f).value) == Instantiate(ys[i], UnifyItems(xs, ys, f).value)
    decreases UnboundCount(List(xs), List(ys), f), DepthSum(List(xs), List(ys), f), SizeSeq(xs) + SizeSeq(ys), 3
  {
    if xs != [] {
      HeadMeasure(xs, ys, f);
      var g := Unify(xs[0], ys[0], f);
      TailMeasure(xs, ys, f, g);
      assert UnifyItems(xs, ys, f) == UnifyItems(xs[1..], ys[1..], g);
      var r := UnifyItems(xs[1..], ys[1..], g).value;
      UnifyItemsSound(xs[1..], ys[1..], g);
      UnifySound(xs[0], ys[0], f.value);
      ItemsSoundStep(xs, ys, g.value, r);
    }
  }

  /** One pass of the item loop: the head's equation survives the frame the tail grows. */
  lemma ItemsSoundStep(xs: seq<Term>, ys: seq<Term>, g: Frame, r: Frame)
    requires |xs| == |ys| && xs != [] && Acyclic(g) && Acyclic(r) && Extends(r, g)
    requires Instantiate(xs[0], g) == Instantiate(ys[0], g)
    requires forall i :: 0 <= i < |xs| - 1 ==> Instantiate(xs[1..][i], r) == Instantiate(ys[1..][i], r)
    ensures forall i :: 0 <= i < |xs| ==> Instantiate(xs[i], r) == Instantiate(ys[i], r)
  {
    EqualUnderExtension(xs[0], ys[0], g, r);
    forall i | 1 <= i < |xs| ensures Instantiate(xs[i], r) == Instantiate(ys[i], r) {
      assert xs[i] == xs[1..][i - 1] && ys[i] == ys[1..][i - 1];
    }
  }

  /** Terms equal under a frame stay equal under any acyclic extension of it. */
  lemma EqualUnderExtension(a: Term, b: Term, g: Frame, r: Frame)
    requires Acyclic(g) && Acyclic(r) && Extends(r, g)
    requires Instantiate(a, g) == Instantiate(b, g)
    ensures Instantiate(a, r) == Instantiate(b, r)
  {
    InstantiateCompose(a, g, r);
    InstantiateCompose(b, g, r);
  }

  /** Once a frame is absent it stays absent. */
  lemma {:induction false} UnifyItemsAbsent(xs: seq<Term>, ys: seq<Term>)
    requires |xs| == |ys|
    ensures UnifyItems(xs, ys, None) == None
    decreases |xs|
  {
    if xs != [] {
      UnifyItemsAbsent(xs[1..], ys[1..]);
    }
  }

  /**
   * unifyMatch fails on a `false` frame, on two different atoms, on an array
   * against an atom (either way round), and on arrays of different lengths.
   */
  lemma UnifyFailures(p: Term, q: Term, f: Frame)
    requires Acyclic(f)
    ensures Unify(p, q, None) == None
    ensures p.Atom? && q.Atom? && p != q ==> Unify(p, q, Some(f)) == None
    ensures p.List? != q.List? && !p.Var? && !q.Var? ==> Unify(p, q, Some(f)) == None
    ensures p.List? && q.List? && |p.items| != |q.items| ==> Unify(p, q, Some(f)) == None
  {
  }

  /** Unification keeps every binding of the input frame. */
  lemma UnifyKeepsBindings(p1: Term, p2: Term, f: Frame, v: string)
    requires Acyclic(f) && Unify(p1, p2, Some(f)).Some? && v in Names(f)
    ensures Lookup(Unify(p1, p2, Some(f)).value, v) == Lookup(f, v)
  {
    ExtendsLookup(Unify(p1, p2, Some(f)).value, f, v);
  }

  /** A term unifies with itself without new bindings, so comparing arrays by identity changes nothing. */
  lemma {:induction false} UnifySelf(t: Term, f: Frame)
    requires Acyclic(f)
    ensures Unify(t, t, Some(f)) == Some(f)
    decreases t, 1
  {
    if t.List? {
      UnifyItemsSelf(t.items, f);
    }
  }

  lemma {:induction false} UnifyItemsSelf(xs: seq<Term>, f: Frame)
    requires Acyclic(f)
    ensures UnifyItems(xs, xs, Some(f)) == Some(f)
    decreases xs, 0
  {
    if xs != [] {
      UnifySelf(xs[0], f);
      UnifyItemsSelf(xs[1..], f);
    }
  }

  /**
   * The occurs check: an unbound variable does not unify with a compound or
   * atom that contains it once the frame is applied, on either side.
   */
  lemma OccursCheck(v: string, t: Term, f: Frame)
    requires Acyclic(f) && v !in Names(f) && !t.Var? && v in Vars(Instantiate(t, f))
    ensures Unify(Var(v), t, Some(f)) == None
    ensures Unify(t, Var(v), Some(f)) == None
  {
  }

  /** Against ground data unification does exactly what pattern matching does. */
  lemma {:induction false} UnifyGroundIsMatch(p: Term, d: Term, f: Frame)
    requires Ground(d) && Acyclic(f)
    ensures Unify(p, d, Some(f)) == Match(p, d, Some(f))
    decreases Size(d), 1, Depth(p, f), 1
  {
    if !p.List? && p == d {
    } else if p.Var? {
      match Lookup(f, p.name) {
        case Some(u) =>
          DepthChase(f, p.name, u);
          UnifyGroundIsMatch(u, d, f);
        case None =>
          GroundIndependent(d, p.name, f);
      }
    } else if p.List? && d.List? && |p.items| == |d.items| {
      GroundItems(d.items);
      UnifyItemsGroundIsMatch(p.items, d.items, Some(f));
    }
  }

  lemma {:induction false} UnifyItemsGroundIsMatch(ps: seq<Term>, ds: seq<Term>, f: Option<Frame>)
    requires |ps| == |ds| && (forall i :: 0 <= i < |ds| ==> Ground(ds[i])) && Usable(f)
    ensures UnifyItems(ps, ds, f) == MatchItems(ps, ds, f)
    decreases SizeSeq(ds), 2
  {
    if ps != [] {
      assert SizeSeq(ds) == Size(ds[0]) + SizeSeq(ds[1..]);
      if f.Some? {
        UnifyGroundIsMatch(ps[0], ds[0], f.value);
      }
      UnifyItemsGroundIsMatch(ps[1..], ds[1..], Match(ps[0], ds[0], f));
    }
  }
}
