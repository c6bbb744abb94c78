/**
 * Renaming the variables of a rule apart before it is applied
 * (logic_programming.js:85-98, 165-171): every variable `?x` becomes
 * `?x-<id>` where `<id>` is the decimal form of the rule counter.
 */
module Renaming {
  import opened Terms

  /** A rule of the database: a conclusion that holds whenever the body does. */
  datatype Rule = Rule(conclusion: Term, body: Term)

  predicate IsDigit(c: char) {
    '0' <= c <= '9'
  }

  /** The decimal form of a natural, as JavaScript prints an integer counter. */
  function NatToString(n: nat): (s: string)
    ensures |s| > 0 && forall i :: 0 <= i < |s| ==> IsDigit(s[i])
  {
    var digit := ['0' + (n % 10) as char];
    if n < 10 then digit else NatToString(n / 10) + digit
  }

  /** Reading a string of digits back as a number. */
  function StringToNat(s: string): nat
    requires forall i :: 0 <= i < |s| ==> IsDigit(s[i])
  {
    if s == [] then 0
    else
      assert IsDigit(s[|s| - 1]);
      10 * StringToNat(s[..|s| - 1]) + (s[|s| - 1] as int - '0' as int) as nat
  }

  lemma {:induction false} NatToStringRoundTrip(n: nat)
    ensures StringToNat(NatToString(n)) == n
  {
    if n >= 10 {
      NatToStringRoundTrip(n / 10);
      var s := NatToString(n);
      assert s[..|s| - 1] == NatToString(n / 10);
    }
  }

  lemma NatToStringInjective(a: nat, b: nat)
    requires NatToString(a) == NatToString(b)
    ensures a == b
  {
    NatToStringRoundTrip(a);
    NatToStringRoundTrip(b);
  }

  /** The name a variable gets under rule id `id`. */
  function RenamedName(v: string, id: nat): string {
    v + "-" + NatToString(id)
  }

  /** renameVariables: suffix every variable with the rule id, leaving atoms and structure alone. */
  function RenameVariables(t: Term, id: nat): (r: Term)
    ensures r.Atom? <==> t.Atom?
    ensures r.Var? <==> t.Var?
    ensures r.List? <==> t.List?
    ensures t.Atom? ==> r == t
    ensures t.Var? ==> r.name == RenamedName(t.name, id)
    ensures t.List? ==> |r.items| == |t.items|
  {
    match t
    case Atom(_) => t
    case Var(v) => Var(RenamedName(v, id))
    case List(xs) => List(seq(|xs|, i requires 0 <= i < |xs| => RenameVariables(xs[i], id)))
  }

  /** Rule.renameVariables, given the counter value it has just incremented to. */
  function RenameRule(rule: Rule, id: nat): (r: Rule)
    ensures r.conclusion == RenameVariables(rule.conclusion, id)
    ensures r.body == RenameVariables(rule.body, id)
  {
    Rule(RenameVariables(rule.conclusion, id), RenameVariables(rule.body, id))
  }

  // ---- Properties

  /** The variables of a renamed term are exactly the renamed variables of the term. */
  lemma {:induction false} RenamedVars(t: Term, id: nat)
    ensures Vars(RenameVariables(t, id)) == set v | v in Vars(t) :: RenamedName(v, id)
  {
    match t
    case Atom(_) =>
    case Var(v) =>
    case List(xs) =>
      var ys := RenameVariables(t, id).items;
      forall i | 0 <= i < |xs| ensures Vars(ys[i]) == set v | v in Vars(xs[i]) :: RenamedName(v, id) {
        RenamedVars(xs[i], id);
      }
      var lhs := Vars(List(ys));
      var rhs := set v | v in Vars(t) :: RenamedName(v, id);
      forall w | w in lhs ensures w in rhs {
        var i :| 0 <= i < |ys| && w in Vars(ys[i]);
        var v :| v in Vars(xs[i]) && w == RenamedName(v, id);
        VarsOfItem(xs, i);
      }
      forall w | w in rhs ensures w in lhs {
        var v :| v in Vars(t) && w == RenamedName(v, id);
        var i :| 0 <= i < |xs| && v in Vars(xs[i]);
        assert w in Vars(ys[i]);
      }
  }

  /** The number of digits a string ends with. */
  function TrailingDigits(s: string): nat {
    if s != [] && IsDigit(s[|s| - 1]) then 1 + TrailingDigits(s[..|s| - 1]) else 0
  }

  lemma {:induction false} TrailingDigitsOfName(a: string, x: string)
    requires forall i :: 0 <= i < |x| ==> IsDigit(x[i])
    ensures TrailingDigits(a + "-" + x) == |x|
  {
    var s := a + "-" + x;
    if x != [] {
      assert s[..|s| - 1] == a + "-" + x[..|x| - 1];
      TrailingDigitsOfName(a, x[..|x| - 1]);
    } else {
      assert s[|s| - 1] == '-';
    }
  }

  /** A variable name ending in `-<digits>` determines both its prefix and its digits. */
  lemma SuffixDetermines(a: string, x: string, b: string, y: string)
    requires forall i :: 0 <= i < |x| ==> IsDigit(x[i])
    requires forall i :: 0 <= i < |y| ==> IsDigit(y[i])
    requires a + "-" + x == b + "-" + y
    ensures a == b && x == y
  {
    var s := a + "-" + x;
    TrailingDigitsOfName(a, x);
    TrailingDigitsOfName(b, y);
    assert x == s[|s| - |x|..];
    assert y == s[|s| - |y|..];
    assert a == s[..|a|];
    assert b == s[..|b|];
  }

  /** Renaming under one id loses nothing: distinct terms stay distinct. */
  lemma {:induction false} RenameInjective(t1: Term, t2: Term, id: nat)
    requires RenameVariables(t1, id) == RenameVariables(t2, id)
    ensures t1 == t2
  {
    match t1
    case Atom(_) =>
    case Var(v) => SuffixDetermines(v, NatToString(id), t2.name, NatToString(id));
    case List(xs) =>
      var ys := t2.items;
      assert |xs| == |ys|;
      forall i | 0 <= i < |xs| ensures xs[i] == ys[i] {
        assert RenameVariables(t1, id).items[i] == RenameVariables(t2, id).items[i];
        RenameInjective(xs[i], ys[i], id);
      }
  }

  /** Renamings under two different ids share no variable. */
  lemma RenamedApartByIds(t1: Term, t2: Term, id1: nat, id2: nat)
    requires id1 != id2
    ensures Vars(RenameVariables(t1, id1)) !! Vars(RenameVariables(t2, id2))
  {
    RenamedVars(t1, id1);
    RenamedVars(t2, id2);
    forall w | w in Vars(RenameVariables(t1, id1)) && w in Vars(RenameVariables(t2, id2))
      ensures false
    {
      var v1 :| v1 in Vars(t1) && w == RenamedName(v1, id1);
      var v2 :| v2 in Vars(t2) && w == RenamedName(v2, id2);
      SuffixDetermines(v1, NatToString(id1), v2, NatToString(id2));
      NatToStringInjective(id1, id2);
    }
  }

  /** No renamed variable clashes with a variable whose name has no `-`, such as any the parser reads. */
  lemma RenamedApartFromPlain(q: Term, t: Term, id: nat)
    requires forall v | v in Vars(q) :: '-' !in v
    ensures Vars(q) !! Vars(RenameVariables(t, id))
  {
    RenamedVars(t, id);
  }
}
