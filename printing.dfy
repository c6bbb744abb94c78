/**
 * The serialisers of logic_programming.js:354-374. serializeTree writes a term
 * as a bracketed, comma-and-space separated tree; serializeTerm writes it in
 * the syntax the parser reads, `functor(arg,arg)`. Both write a variable with
 * its `?` sigil; the parser's sanitising step drops it again, so that parsing
 * the serialisation of a parseable term gives back the term.
 */
module Printing {
  import opened Wrappers
  import opened Terms
  import opened Parsing
  import opened Streams

  /**
   * The JavaScript string conversion of a term, used by serializeTerm for the
   * functor: an array converts to its items' conversions joined by ','.
   */
  function JsText(t: Term): string
    decreases t, 1, 0
  {
    match t
    case Atom(n) => n
    case Var(n) => "?" + n
    case List(xs) => JsItems(t, 0)
  }

  function JsItems(t: Term, i: nat): string
    requires t.List?
    decreases t, 0, |t.items| - i
  {
    if i >= |t.items| then ""
    else JsText(t.items[i]) + (if i + 1 < |t.items| then "," else "") + JsItems(t, i + 1)
  }

  /** serializeTerm: the functor's text, then the arguments in parentheses, separated by ','. */
  function TermText(t: Term): string
    decreases t, 1, 0
  {
    match t
    case Atom(n) => n
    case Var(n) => "?" + n
    case List(xs) => (if |xs| == 0 then "undefined" else JsText(xs[0])) + "(" + ArgsText(t, 1) + ")"
  }

  /** The arguments of a compound from item `i` on, as serializeTerm's loop writes them. */
  function ArgsText(t: Term, i: nat): string
    requires t.List?
    decreases t, 0, |t.items| - i
  {
    if i >= |t.items| then ""
    else TermText(t.items[i]) + (if i + 1 < |t.items| then "," else "") + ArgsText(t, i + 1)
  }

  /** lP.serializeTerm, with its argument loop. */
  method SerializeTerm(t: Term) returns (result: string)
    ensures result == TermText(t)
    decreases t
  {
    if t.List? {
      result := (if |t.items| == 0 then "undefined" else JsText(t.items[0])) + "(";
      var i := 1;
      while i < |t.items|
        invariant 1 <= i && (i <= |t.items| || i == 1)
        invariant result + ArgsText(t, i) + ")" == TermText(t)
      {
        var arg := SerializeTerm(t.items[i]);
        var sep := if i + 1 < |t.items| then "," else "";
        assert ArgsText(t, i) == arg + sep + ArgsText(t, i + 1);
        result := result + arg;
        result := result + sep;
        i := i + 1;
      }
      result := result + ")";
    } else if t.Atom? {
      result := t.name;
    } else {
      result := "?" + t.name;
    }
  }

  /** serializeTree: a compound as `[item, item]`, any other term as its text. */
  function TreeText(t: Term): (r: string)
    ensures !t.List? ==> r == JsText(t)
    ensures t.List? ==> |r| >= 2 && r[0] == '[' && r[|r| - 1] == ']'
    decreases t, 1, 0
  {
    match t
    case Atom(n) => n
    case Var(n) => "?" + n
    case List(_) => "[" + TreeItems(t, 0) + "]"
  }

  function TreeItems(t: Term, i: nat): string
    requires t.List?
    decreases t, 0, |t.items| - i
  {
    if i >= |t.items| then ""
    else TreeText(t.items[i]) + (if i + 1 < |t.items| then ", " else "") + TreeItems(t, i + 1)
  }

  /** Array.prototype.join: the parts, with `sep` between neighbours. */
  function Join(parts: seq<string>, sep: string): string {
    if parts == [] then "" else if |parts| == 1 then parts[0] else parts[0] + sep + Join(parts[1..], sep)
  }

  /** The items of a compound, as serializeTree writes them: each one's tree text, joined by ", ". */
  lemma {:induction false} TreeItemsJoin(t: Term, i: nat)
    requires t.List? && i <= |t.items|
    ensures TreeItems(t, i) == Join(Map(t.items[i..], TreeText), ", ")
    decreases |t.items| - i
  {
    if i < |t.items| {
      var parts := Map(t.items[i..], TreeText);
      TreeItemsJoin(t, i + 1);
      assert parts[0] == TreeText(t.items[i]);
      assert parts[1..] == Map(t.items[i + 1..], TreeText);
      if i + 1 == |t.items| {
        assert TreeItems(t, i + 1) == "";
        assert TreeItems(t, i) == TreeText(t.items[i]) + "" + "";
      }
    }
  }

  /** serializeTree on a compound: the tree texts of its items, joined by ", ", in brackets. */
  lemma SerializeTreeOfList(xs: seq<Term>)
    ensures TreeText(List(xs)) == "[" + Join(Map(xs, TreeText), ", ") + "]"
  {
    TreeItemsJoin(List(xs), 0);
    assert xs[0..] == xs;
  }

  // ---- Round trip through the parser

  /** The text of a term as the parser sees it after sanitising: serializeTerm's text without `?`. */
  ghost function Plain(t: Term): string
    decreases t, 1, 0
  {
    match t
    case Atom(n) => n
    case Var(n) => n
    case List(xs) => (if |xs| == 0 then "" else Plain(xs[0])) + "(" + PlainArgs(t, 1) + ")"
  }

  ghost function PlainArgs(t: Term, i: nat): string
    requires t.List?
    decreases t, 0, |t.items| - i
  {
    if i >= |t.items| then ""
    else Plain(t.items[i]) + (if i + 1 < |t.items| then "," else "") + PlainArgs(t, i + 1)
  }

  /** Sanitising three adjacent pieces of text. */
  lemma SanitiseThree(a: string, b: string, c: string)
    ensures Sanitise(a + b + c) == Sanitise(a) + Sanitise(b) + Sanitise(c)
  {
    SanitiseAppend(a, b);
    SanitiseAppend(a + b, c);
  }

  lemma {:induction false} SanitiseText(t: Term)
    requires WellFormed(t)
    ensures Sanitise(TermText(t)) == Plain(t)
    decreases t, 1, 0
  {
    match t
    case Atom(n) =>
      SanitiseClean(n);
    case Var(n) =>
      SanitiseAppend("?", n);
      SanitiseClean(n);
      assert Sanitise("?") == [];
    case List(xs) =>
      var head := xs[0].name;
      var args := ArgsText(t, 1);
      assert JsText(xs[0]) == head && Plain(xs[0]) == head;
      assert TermText(t) == (head + "(") + args + ")";
      assert Plain(t) == (head + "(") + PlainArgs(t, 1) + ")";
      SanitiseClean(head + "(");
      SanitiseClean(")");
      SanitiseArgs(t, 1);
      SanitiseThree(head + "(", args, ")");
  }

  lemma {:induction false} SanitiseArgs(t: Term, i: nat)
    requires t.List? && WellFormed(t) && i >= 1
    ensures Sanitise(ArgsText(t, i)) == PlainArgs(t, i)
    decreases t, 0, |t.items| - i
  {
    if i < |t.items| {
      assert WellFormed(t.items[i]);
      SanitiseText(t.items[i]);
      SanitiseArgs(t, i + 1);
      SanitiseArgsStep(t, i);
    }
  }

  /** One argument: its sanitised text, then the sanitised rest. */
  lemma SanitiseArgsStep(t: Term, i: nat)
    requires t.List? && i < |t.items|
    requires Sanitise(TermText(t.items[i])) == Plain(t.items[i])
    requires Sanitise(ArgsText(t, i + 1)) == PlainArgs(t, i + 1)
    ensures Sanitise(ArgsText(t, i)) == PlainArgs(t, i)
  {
    var x := t.items[i];
    if i + 1 < |t.items| {
      assert ArgsText(t, i) == TermText(x) + "," + ArgsText(t, i + 1);
      assert PlainArgs(t, i) == Plain(x) + "," + PlainArgs(t, i + 1);
      SanitiseJoin(TermText(x), ArgsText(t, i + 1));
    } else {
      assert ArgsText(t, i) == TermText(x) + "" + ArgsText(t, i + 1);
      assert PlainArgs(t, i) == Plain(x) + "" + PlainArgs(t, i + 1);
      assert ArgsText(t, i + 1) == "" && PlainArgs(t, i + 1) == "";
      assert TermText(x) + "" + "" == TermText(x);
      assert Plain(x) + "" + "" == Plain(x);
    }
  }

  /** Sanitising two pieces of text joined by a comma. */
  lemma SanitiseJoin(a: string, b: string)
    ensures Sanitise(a + "," + b) == Sanitise(a) + "," + Sanitise(b)
  {
    SanitiseClean(",");
    SanitiseThree(a, ",", b);
  }

  /** A piece of a word found at `pos` of `s` is the same piece of `s`. */
  lemma SliceAt(s: string, pos: nat, w: string, a: nat, b: nat)
    requires pos + |w| <= |s| && s[pos..pos + |w|] == w && a <= b <= |w|
    ensures s[pos + a..pos + b] == w[a..b]
  {
    forall k | 0 <= k < b - a
      ensures s[pos + a..pos + b][k] == w[a..b][k]
    {
      assert s[pos + a + k] == s[pos..pos + |w|][a + k];
    }
  }

  lemma CharAt(s: string, pos: nat, w: string, a: nat)
    requires pos + |w| <= |s| && s[pos..pos + |w|] == w && a < |w|
    ensures s[pos + a] == w[a]
  {
    assert s[pos + a] == s[pos..pos + |w|][a];
  }

  /** What may follow a term inside the text of a term: the end, a ',' or a ')'. */
  predicate Follows(s: string, e: nat) {
    e == |s| || (e < |s| && (s[e] == ',' || s[e] == ')'))
  }

  /** A word at `pos` that no word character follows is the run the word readers take. */
  lemma WordAt(s: string, pos: nat, n: string)
    requires n != [] && IsWord(n) && pos + |n| <= |s| && s[pos..pos + |n|] == n
    requires pos + |n| == |s| || !IsWordChar(s[pos + |n|])
    ensures s[pos] == n[0] && WordEnd(s, pos) == pos + |n|
  {
    CharAt(s, pos, n, 0);
    WordEndAt(s, pos, pos + |n|);
  }

  lemma AtomTermAt(s: string, pos: nat, n: string)
    requires WellFormed(Atom(n)) && pos + |n| <= |s| && s[pos..pos + |n|] == n && Follows(s, pos + |n|)
    ensures ParseTermSpec(s, pos) == Some(Parsed(Atom(n), pos + |n|))
  {
    WordAt(s, pos, n);
    assert ParseAtomSpec(s, pos) == Some(Parsed(n, pos + |n|));
    assert ParseCompoundSpec(s, pos) == None;
  }

  lemma VarTermAt(s: string, pos: nat, n: string)
    requires WellFormed(Var(n)) && pos + |n| <= |s| && s[pos..pos + |n|] == n && Follows(s, pos + |n|)
    ensures ParseTermSpec(s, pos) == Some(Parsed(Var(n), pos + |n|))
  {
    WordAt(s, pos, n);
    assert ParseAtomSpec(s, pos) == None;
    assert ParseCompoundSpec(s, pos) == None;
    assert ParseVariableSpec(s, pos) == Some(Parsed(n, pos + |n|));
  }

  lemma CompoundAt(s: string, pos: nat, n: string, r: Option<Parsed<Term>>)
    requires WellFormed(Atom(n)) && pos + |n| < |s| && s[pos..pos + |n|] == n && s[pos + |n|] == '('
    requires ParseArgsSpec(s, pos + |n| + 1, [Atom(n)]) == r
    ensures ParseCompoundSpec(s, pos) == r
  {
    WordAt(s, pos, n);
    CompoundFromAtom(s, pos, n, r);
  }

  lemma CompoundFromAtom(s: string, pos: nat, n: string, r: Option<Parsed<Term>>)
    requires WellFormed(Atom(n)) && pos + |n| < |s| && s[pos + |n|] == '('
    requires ParseAtomSpec(s, pos) == Some(Parsed(n, pos + |n|))
    requires ParseArgsSpec(s, pos + |n| + 1, [Atom(n)]) == r
    ensures ParseCompoundSpec(s, pos) == r
  {
    var f := Parsed(n, pos + |n|);
    CompoundUnfold(s, pos, f);
    assert f.next < |s| && s[f.next] == '(';
    assert [Atom(f.value)] == [Atom(n)];
  }

  /** parseCompoundTerm once the functor is read: the arguments follow an opening bracket. */
  lemma CompoundUnfold(s: string, pos: nat, f: Parsed<string>)
    requires ParseAtomSpec(s, pos) == Some(f)
    ensures WellFormed(Atom(f.value))
    ensures ParseCompoundSpec(s, pos)
            == if f.next < |s| && s[f.next] == '(' then ParseArgsSpec(s, f.next + 1, [Atom(f.value)]) else None
  {
  }

  lemma CompoundFirst(s: string, pos: nat)
    requires ParseCompoundSpec(s, pos).Some?
    ensures ParseTermSpec(s, pos) == ParseCompoundSpec(s, pos)
  {
  }

  /** One step of the argument loop: the argument read, then `)` or `,`. */
  lemma ArgsStep(s: string, pos: nat, acc: seq<Term>, x: Term, e: nat)
    requires |acc| >= 1 && acc[0].Atom? && forall i :: 0 <= i < |acc| ==> WellFormed(acc[i])
    requires ParseTermSpec(s, pos) == Some(Parsed(x, e))
    ensures e < |s| && s[e] == ')' ==> ParseArgsSpec(s, pos, acc) == Some(Parsed(List(acc + [x]), e + 1))
    ensures e < |s| && s[e] == ',' ==> ParseArgsSpec(s, pos, acc) == ParseArgsSpec(s, e + 1, acc + [x])
  {
  }

  /** Where the pieces of a compound's text lie when the text is found at `pos`. */
  lemma CompoundPieces(t: Term, s: string, pos: nat)
    requires t.List? && WellFormed(t)
    requires pos + |Plain(t)| <= |s| && s[pos..pos + |Plain(t)|] == Plain(t)
    ensures var n, args := t.items[0].name, PlainArgs(t, 1);
      |Plain(t)| == |n| + 1 + |args| + 1 &&
      s[pos..pos + |n|] == n && s[pos + |n|] == '(' &&
      s[pos + |n| + 1..pos + |n| + 1 + |args|] == args && s[pos + |n| + 1 + |args|] == ')'
  {
    PlainCompound(t);
    Bracketed(s, pos, t.items[0].name, PlainArgs(t, 1));
  }

  lemma PlainCompound(t: Term)
    requires t.List? && WellFormed(t)
    ensures Plain(t) == t.items[0].name + "(" + PlainArgs(t, 1) + ")"
  {
    assert Plain(t.items[0]) == t.items[0].name;
  }

  /** The pieces of `n(args)` found at `pos`. */
  lemma Bracketed(s: string, pos: nat, n: string, args: string)
    requires pos + |n + "(" + args + ")"| <= |s| && s[pos..pos + |n + "(" + args + ")"|] == n + "(" + args + ")"
    ensures s[pos..pos + |n|] == n && s[pos + |n|] == '('
    ensures s[pos + |n| + 1..pos + |n| + 1 + |args|] == args && s[pos + |n| + 1 + |args|] == ')'
  {
    var w := n + "(" + args + ")";
    SliceAt(s, pos, w, 0, |n|);
    assert w[0..|n|] == n;
    CharAt(s, pos, w, |n|);
    SliceAt(s, pos, w, |n| + 1, |n| + 1 + |args|);
    assert w[|n| + 1..|n| + 1 + |args|] == args;
    CharAt(s, pos, w, |n| + 1 + |args|);
  }

  /** Where the first argument's text and the rest lie when the arguments' text is found at `pos`. */
  lemma ArgPieces(t: Term, i: nat, s: string, pos: nat)
    requires t.List? && 1 <= i < |t.items|
    requires pos + |PlainArgs(t, i)| <= |s| && s[pos..pos + |PlainArgs(t, i)|] == PlainArgs(t, i)
    ensures var x, more := t.items[i], PlainArgs(t, i + 1);
      s[pos..pos + |Plain(x)|] == Plain(x) &&
      (i + 1 < |t.items| ==>
        |PlainArgs(t, i)| == |Plain(x)| + 1 + |more| && s[pos + |Plain(x)|] == ',' &&
        s[pos + |Plain(x)| + 1..pos + |PlainArgs(t, i)|] == more) &&
      (i + 1 == |t.items| ==> PlainArgs(t, i) == Plain(x))
  {
    var x := t.items[i];
    var w := PlainArgs(t, i);
    var more := PlainArgs(t, i + 1);
    if i + 1 < |t.items| {
      assert w == Plain(x) + "," + more;
      SliceAt(s, pos, w, 0, |Plain(x)|);
      assert w[0..|Plain(x)|] == Plain(x);
      CharAt(s, pos, w, |Plain(x)|);
      SliceAt(s, pos, w, |Plain(x)| + 1, |w|);
      assert w[|Plain(x)| + 1..|w|] == more;
    } else {
      assert more == "";
      assert w == Plain(x);
    }
  }

  lemma CompoundTermAt(s: string, pos: nat, n: string, t: Term, e: nat)
    requires WellFormed(Atom(n)) && pos + |n| < |s| && s[pos..pos + |n|] == n && s[pos + |n|] == '('
    requires ParseArgsSpec(s, pos + |n| + 1, [Atom(n)]) == Some(Parsed(t, e))
    ensures ParseTermSpec(s, pos) == Some(Parsed(t, e))
  {
    CompoundAt(s, pos, n, Some(Parsed(t, e)));
    CompoundFirst(s, pos);
  }

  lemma {:induction false} ParsePlainAt(t: Term, s: string, pos: nat)
    requires WellFormed(t)
    requires pos + |Plain(t)| <= |s| && s[pos..pos + |Plain(t)|] == Plain(t) && Follows(s, pos + |Plain(t)|)
    ensures ParseTermSpec(s, pos) == Some(Parsed(t, pos + |Plain(t)|))
    decreases t, 2, 0, 0
  {
    match t
    case Atom(n) =>
      AtomTermAt(s, pos, n);
    case Var(n) =>
      VarTermAt(s, pos, n);
    case List(xs) =>
      CompoundPlainAt(t, s, pos);
  }

  lemma {:induction false} CompoundPlainAt(t: Term, s: string, pos: nat)
    requires t.List? && WellFormed(t)
    requires pos + |Plain(t)| <= |s| && s[pos..pos + |Plain(t)|] == Plain(t)
    ensures ParseTermSpec(s, pos) == Some(Parsed(t, pos + |Plain(t)|))
    decreases t, 1, 0, 0
  {
    var n := t.items[0].name;
    var e := pos + |Plain(t)|;
    CompoundPieces(t, s, pos);
    assert e == pos + |n| + 1 + |PlainArgs(t, 1)| + 1;
    ParseArgsAt(t, 1, s, pos + |n| + 1);
    assert t.items[..1] == [Atom(n)];
    assert ParseArgsSpec(s, pos + |n| + 1, [Atom(n)]) == Some(Parsed(t, e));
    CompoundTermAt(s, pos, n, t, e);
  }

  lemma {:induction false} ParseArgsAt(t: Term, i: nat, s: string, pos: nat)
    requires t.List? && WellFormed(t) && 1 <= i < |t.items|
    requires pos + |PlainArgs(t, i)| < |s| && s[pos..pos + |PlainArgs(t, i)|] == PlainArgs(t, i)
    requires s[pos + |PlainArgs(t, i)|] == ')'
    ensures ParseArgsSpec(s, pos, t.items[..i]) == Some(Parsed(t, pos + |PlainArgs(t, i)| + 1))
    decreases t, 0, |t.items| - i, 1
  {
    if i + 1 < |t.items| {
      ArgsAtMore(t, i, s, pos);
    } else {
      ArgsAtLast(t, i, s, pos);
    }
  }

  /** An argument followed by `,` and the text of the later arguments. */
  lemma {:induction false} ArgsAtMore(t: Term, i: nat, s: string, pos: nat)
    requires t.List? && WellFormed(t) && 1 <= i && i + 1 < |t.items|
    requires pos + |PlainArgs(t, i)| < |s| && s[pos..pos + |PlainArgs(t, i)|] == PlainArgs(t, i)
    requires s[pos + |PlainArgs(t, i)|] == ')'
    ensures ParseArgsSpec(s, pos, t.items[..i]) == Some(Parsed(t, pos + |PlainArgs(t, i)| + 1))
    decreases t, 0, |t.items| - i, 0
  {
    var x := t.items[i];
    var e := pos + |Plain(x)|;
    assert WellFormed(x);
    ArgPieces(t, i, s, pos);
    ParsePlainAt(x, s, pos);
    ArgsStep(s, pos, t.items[..i], x, e);
    assert t.items[..i] + [x] == t.items[..i + 1];
    ParseArgsAt(t, i + 1, s, e + 1);
  }

  /** The last argument, followed by `)`. */
  lemma {:induction false} ArgsAtLast(t: Term, i: nat, s: string, pos: nat)
    requires t.List? && WellFormed(t) && i >= 1 && i + 1 == |t.items|
    requires pos + |PlainArgs(t, i)| < |s| && s[pos..pos + |PlainArgs(t, i)|] == PlainArgs(t, i)
    requires s[pos + |PlainArgs(t, i)|] == ')'
    ensures ParseArgsSpec(s, pos, t.items[..i]) == Some(Parsed(t, pos + |PlainArgs(t, i)| + 1))
    decreases t, 0, |t.items| - i, 0
  {
    var x := t.items[i];
    var e := pos + |Plain(x)|;
    assert WellFormed(x);
    ArgPieces(t, i, s, pos);
    ParsePlainAt(x, s, pos);
    ArgsStep(s, pos, t.items[..i], x, e);
    assert t.items[..i] + [x] == t.items;
  }

  /**
   * Parsing the serialisation of a term the parser can produce gives back
   * exactly that term.
   */
  lemma SerializeTermRoundTrip(t: Term)
    requires WellFormed(t)
    ensures ParseTermsSpec(TermText(t)) == Some([t])
  {
    var s := Plain(t);
    SanitiseText(t);
    assert s[0..|s|] == s;
    ParsePlainAt(t, s, 0);
    PlainNonEmpty(t);
    ParseOnlyTerm(s, t);
  }

  lemma PlainNonEmpty(t: Term)
    requires WellFormed(t)
    ensures |Plain(t)| > 0
  {
    match t
    case Atom(n) =>
    case Var(n) =>
    case List(xs) =>
      assert Plain(t) == Plain(xs[0]) + "(" + PlainArgs(t, 1) + ")";
  }

  /** A text that is one term from start to end parses to that one term. */
  lemma ParseOnlyTerm(s: string, t: Term)
    requires |s| > 0 && ParseTermSpec(s, 0) == Some(Parsed(t, |s|))
    ensures ParseAllSpec(s, 0) == Some([t])
  {
    assert ParseAllSpec(s, |s|) == Some([]);
    assert [t] + [] == [t];
  }
}
