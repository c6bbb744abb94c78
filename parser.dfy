/**
 * The recursive-descent parser of logic_programming.js:381-489. The input is
 * first stripped to the characters [a-zA-Z_(,)]; then terms are read one after
 * another, each parse threading a position through the string. An atom is a
 * lower-case letter followed by letters and underscores, a variable the same
 * after an upper-case letter, and a compound an atom, `(`, one or more terms
 * separated by `,`, and `)`.
 *
 * The source returns `[term, next]` on success and `[[], -1]` on failure; here
 * that is `Some(Parsed(term, next))` and `None`. Each parse has a specification
 * function (the ...Spec functions) and a method proved equal to it that
 * follows the loops of the source.
 */
module Parsing {
  import opened Wrappers
  import opened Terms

  predicate IsUpper(c: char) { 'A' <= c <= 'Z' }
  predicate IsLower(c: char) { 'a' <= c <= 'z' }
  predicate IsWordChar(c: char) { IsUpper(c) || IsLower(c) || c == '_' }

  /** The characters the sanitising step keeps. */
  predicate IsKept(c: char) { IsWordChar(c) || c == '(' || c == ',' || c == ')' }

  predicate IsWord(w: string) {
    forall i :: 0 <= i < |w| ==> IsWordChar(w[i])
  }

  /** The terms the parser can produce. */
  predicate WellFormed(t: Term) {
    match t
    case Atom(n) => n != [] && IsLower(n[0]) && IsWord(n)
    case Var(n) => n != [] && IsUpper(n[0]) && IsWord(n)
    case List(xs) =>
      |xs| >= 2 && xs[0].Atom? && WellFormed(xs[0]) &&
      forall i :: 1 <= i < |xs| ==> WellFormed(xs[i])
  }

  /** A parse result: the value read and the position just after it. */
  datatype Parsed<T> = Parsed(value: T, next: nat)

  /** The replace of parseTerms: every character outside [a-zA-Z_(,)] is dropped, the rest kept in order. */
  function Sanitise(raw: string): (r: string)
    ensures forall i :: 0 <= i < |r| ==> IsKept(r[i])
    ensures |r| <= |raw|
  {
    if raw == [] then []
    else if IsKept(raw[0]) then [raw[0]] + Sanitise(raw[1..])
    else Sanitise(raw[1..])
  }

  /** Sanitising keeps every occurrence of a kept character and drops every other character. */
  lemma {:induction false} SanitiseCounts(raw: string, c: char)
    ensures multiset(Sanitise(raw))[c] == if IsKept(c) then multiset(raw)[c] else 0
  {
    if raw != [] {
      assert raw == [raw[0]] + raw[1..];
      SanitiseCounts(raw[1..], c);
    }
  }

  /** A string of kept characters passes the sanitising step unchanged. */
  lemma {:induction false} SanitiseClean(s: string)
    requires forall i :: 0 <= i < |s| ==> IsKept(s[i])
    ensures Sanitise(s) == s
  {
    if s != [] {
      SanitiseClean(s[1..]);
    }
  }

  /** Sanitising works character by character. */
  lemma {:induction false} SanitiseAppend(a: string, b: string)
    ensures Sanitise(a + b) == Sanitise(a) + Sanitise(b)
  {
    if a == [] {
      assert a + b == b;
    } else {
      assert (a + b)[0] == a[0];
      assert (a + b)[1..] == a[1..] + b;
      SanitiseAppend(a[1..], b);
    }
  }

  /** The end of the run of letters and underscores that starts at `pos`. */
  function WordEnd(s: string, pos: nat): (e: nat)
    requires pos <= |s|
    ensures pos <= e <= |s|
    ensures IsWord(s[pos..e])
    ensures e == |s| || !IsWordChar(s[e])
    decreases |s| - pos
  {
    if pos < |s| && IsWordChar(s[pos]) then
      var e := WordEnd(s, pos + 1);
      assert s[pos..e] == [s[pos]] + s[pos + 1..e];
      e
    else pos
  }

  /** A word that ends where a non-word character (or the string) begins is the run WordEnd finds. */
  lemma {:induction false} WordEndAt(s: string, pos: nat, e: nat)
    requires pos <= e <= |s| && IsWord(s[pos..e]) && (e == |s| || !IsWordChar(s[e]))
    ensures WordEnd(s, pos) == e
    decreases e - pos
  {
    if pos < e {
      assert s[pos] == s[pos..e][0];
      assert s[pos + 1..e] == s[pos..e][1..];
      WordEndAt(s, pos + 1, e);
    }
  }

  // ---- Specification functions

  /** parseAtom: a lower-case letter, then letters and underscores for as long as they last. */
  function ParseAtomSpec(s: string, pos: nat): (r: Option<Parsed<string>>)
    ensures r.Some? <==> pos < |s| && IsLower(s[pos])
    ensures r.Some? ==> pos < r.value.next <= |s| && r.value.value == s[pos..r.value.next]
    ensures r.Some? ==> WellFormed(Atom(r.value.value))
    ensures r.Some? ==> r.value.next == |s| || !IsWordChar(s[r.value.next])
  {
    if pos < |s| && IsLower(s[pos]) then
      var e := WordEnd(s, pos);
      Some(Parsed(s[pos..e], e))
    else None
  }

  /** parseVariable: as parseAtom, after an upper-case letter. */
  function ParseVariableSpec(s: string, pos: nat): (r: Option<Parsed<string>>)
    ensures r.Some? <==> pos < |s| && IsUpper(s[pos])
    ensures r.Some? ==> pos < r.value.next <= |s| && r.value.value == s[pos..r.value.next]
    ensures r.Some? ==> WellFormed(Var(r.value.value))
    ensures r.Some? ==> r.value.next == |s| || !IsWordChar(s[r.value.next])
  {
    if pos < |s| && IsUpper(s[pos]) then
      var e := WordEnd(s, pos);
      Some(Parsed(s[pos..e], e))
    else None
  }

  /** How far a parse at `pos` may still go; a measure for the mutual recursion. */
  function Left(s: string, pos: nat): nat {
    if pos <= |s| then |s| - pos else 0
  }

  /** parseTerm: a compound, else an atom, else a variable. */
  function ParseTermSpec(s: string, pos: nat): (r: Option<Parsed<Term>>)
    ensures r.Some? ==> pos < r.value.next <= |s| && WellFormed(r.value.value)
    decreases Left(s, pos), 2
  {
    var c := ParseCompoundSpec(s, pos);
    if c.Some? then c
    else
      match ParseAtomSpec(s, pos)
      case Some(a) => Some(Parsed(Atom(a.value), a.next))
      case None =>
        match ParseVariableSpec(s, pos)
        case Some(v) => Some(Parsed(Var(v.value), v.next))
        case None => None
  }

  /** parseCompoundTerm: the functor, `(`, then the arguments. */
  function ParseCompoundSpec(s: string, pos: nat): (r: Option<Parsed<Term>>)
    ensures r.Some? ==> pos < r.value.next <= |s| && WellFormed(r.value.value)
    decreases Left(s, pos), 1
  {
    match ParseAtomSpec(s, pos)
    case None => None
    case Some(f) =>
      if f.next < |s| && s[f.next] == '(' then ParseArgsSpec(s, f.next + 1, [Atom(f.value)]) else None
  }

  /** The argument loop of parseCompoundTerm: `acc` holds the functor and the arguments read so far. */
  function ParseArgsSpec(s: string, pos: nat, acc: seq<Term>): (r: Option<Parsed<Term>>)
    requires |acc| >= 1 && acc[0].Atom? && forall i :: 0 <= i < |acc| ==> WellFormed(acc[i])
    ensures r.Some? ==> pos < r.value.next <= |s| && WellFormed(r.value.value)
    ensures r.Some? ==> r.value.value.List? && |r.value.value.items| > |acc| && r.value.value.items[..|acc|] == acc
    decreases Left(s, pos), 3
  {
    match ParseTermSpec(s, pos)
    case None => None
    case Some(t) =>
      var items := acc + [t.value];
      assert items[..|acc|] == acc;
      if t.next < |s| && s[t.next] == ')' then Some(Parsed(List(items), t.next + 1))
      else if t.next < |s| && s[t.next] == ',' then
        var r := ParseArgsSpec(s, t.next + 1, items);
        assert r.Some? ==> r.value.value.items[..|acc|] == r.value.value.items[..|items|][..|acc|];
        r
      else None
  }

  /** The loop of parseTerms: terms one after another up to the end, or failure. */
  function ParseAllSpec(s: string, pos: nat): (r: Option<seq<Term>>)
    ensures r.Some? ==> forall i :: 0 <= i < |r.value| ==> WellFormed(r.value[i])
    ensures r.Some? && pos < |s| ==> |r.value| > 0
    decreases Left(s, pos)
  {
    if pos >= |s| then Some([])
    else
      match ParseTermSpec(s, pos)
      case None => None
      case Some(t) =>
        match ParseAllSpec(s, t.next)
        case None => None
        case Some(ts) => Some([t.value] + ts)
  }

  /** parseTerms. */
  function ParseTermsSpec(raw: string): (r: Option<seq<Term>>)
    ensures r.Some? ==> forall i :: 0 <= i < |r.value| ==> WellFormed(r.value[i])
  {
    ParseAllSpec(Sanitise(raw), 0)
  }

  // ---- The parser's methods

  /** Parser.parseAtom. */
  method ParseAtom(s: string, pos: nat) returns (r: Option<Parsed<string>>)
    ensures r == ParseAtomSpec(s, pos)
  {
    var name := "";
    var p := pos;
    while p < |s|
      invariant p == pos ==> name == ""
      invariant p != pos ==> pos < p <= |s| && IsLower(s[pos]) && name == s[pos..p] && WordEnd(s, p) == WordEnd(s, pos)
      decreases |s| - p
    {
      var ch := s[p];
      p := p + 1;
      if IsUpper(ch) {
        if |name| == 0 {
          return None;
        }
        name := name + [ch];
      } else if IsLower(ch) {
        name := name + [ch];
      } else if ch == '_' {
        if |name| == 0 {
          return None;
        }
        name := name + [ch];
      } else {
        p := p - 1;
        break;
      }
    }
    if |name| > 0 {
      return Some(Parsed(name, p));
    }
    return None;
  }

  /** Parser.parseVariable. */
  method ParseVariable(s: string, pos: nat) returns (r: Option<Parsed<string>>)
    ensures r == ParseVariableSpec(s, pos)
  {
    var name := "";
    var p := pos;
    while p < |s|
      invariant p == pos ==> name == ""
      invariant p != pos ==> pos < p <= |s| && IsUpper(s[pos]) && name == s[pos..p] && WordEnd(s, p) == WordEnd(s, pos)
      decreases |s| - p
    {
      var ch := s[p];
      p := p + 1;
      if IsUpper(ch) {
        name := name + [ch];
      } else if IsLower(ch) {
        if |name| == 0 {
          return None;
        }
        name := name + [ch];
      } else if ch == '_' {
        if |name| == 0 {
          return None;
        }
        name := name + [ch];
      } else {
        p := p - 1;
        break;
      }
    }
    if |name| > 0 {
      return Some(Parsed(name, p));
    }
    return None;
  }

  /** Parser.parseTerm. */
  method ParseTerm(s: string, pos: nat) returns (r: Option<Parsed<Term>>)
    ensures r == ParseTermSpec(s, pos)
    decreases Left(s, pos), 2
  {
    r := ParseCompoundTerm(s, pos);
    if r.Some? {
      return;
    }
    var a := ParseAtom(s, pos);
    if a.Some? {
      return Some(Parsed(Atom(a.value.value), a.value.next));
    }
    var v := ParseVariable(s, pos);
    if v.Some? {
      return Some(Parsed(Var(v.value.value), v.value.next));
    }
    return None;
  }

  /** Parser.parseCompoundTerm. */
  method ParseCompoundTerm(s: string, pos: nat) returns (r: Option<Parsed<Term>>)
    ensures r == ParseCompoundSpec(s, pos)
    decreases Left(s, pos), 1
  {
    var functor := ParseAtom(s, pos);
    if functor.None? {
      return None;
    }
    var p := functor.value.next;
    if !(p < |s| && s[p] == '(') {
      return None;
    }
    p := p + 1;
    var result := [Atom(functor.value.value)];
    while true
      invariant pos < p <= |s|
      invariant |result| >= 1 && result[0].Atom? && forall i :: 0 <= i < |result| ==> WellFormed(result[i])
      invariant ParseArgsSpec(s, p, result) == ParseCompoundSpec(s, pos)
      decreases |s| - p
    {
      var term := ParseTerm(s, p);
      if term.None? {
        return None;
      }
      p := term.value.next;
      if p < |s| && s[p] == ')' {
        p := p + 1;
        result := result + [term.value.value];
        break;
      }
      if p < |s| && s[p] == ',' {
        p := p + 1;
        result := result + [term.value.value];
        continue;
      }
      return None;
    }
    return Some(Parsed(List(result), p));
  }

  /** Parser.parseTerms. */
  method ParseTerms(raw: string) returns (r: Option<seq<Term>>)
    ensures r == ParseTermsSpec(raw)
  {
    var s := Sanitise(raw);
    var result: seq<Term> := [];
    var pos := 0;
    match ParseAllSpec(s, 0) {
      case None =>
      case Some(ts) => assert [] + ts == ts;
    }
    while pos < |s|
      invariant ParseTermsSpec(raw) == Prefixed(result, ParseAllSpec(s, pos))
      decreases |s| - pos
    {
      var term := ParseTerm(s, pos);
      if term.None? {
        return None;
      }
      match ParseAllSpec(s, term.value.next) {
        case None =>
        case Some(ts) => assert result + ([term.value.value] + ts) == (result + [term.value.value]) + ts;
      }
      result := result + [term.value.value];
      pos := term.value.next;
    }
    assert result + [] == result;
    return Some(result);
  }

  /** The terms read before, put in front of the outcome of reading the rest. */
  function Prefixed(done: seq<Term>, rest: Option<seq<Term>>): (r: Option<seq<Term>>)
    ensures r.Some? <==> rest.Some?
    ensures r.Some? ==> r.value == done + rest.value
  {
    match rest
    case None => None
    case Some(ts) => Some(done + ts)
  }
}
