/**
 * Properties of query evaluation: where the answers of a simple query come
 * from, what `or` and `not` deliver, and the discrepancy of orQuery's loop.
 */
module QueryProperties {
  import opened Wrappers
  import opened Terms
  import opened Frames
  import opened Resolve
  import opened Matching
  import opened Unification
  import opened Renaming
  import opened Streams
  import opened Query

  // ---- Simple queries

  lemma CheckAssertionMembers(goal: Term, assertion: Term, frame: Frame, m: Frame)
    requires Ground(assertion) && Acyclic(frame)
    ensures m in CheckAssertion(goal, assertion, frame) <==> Match(goal, assertion, Some(frame)) == Some(m)
  {
  }

  /** findAssertions answers exactly the successful matches of the query against the assertions. */
  lemma FindAssertionsMembers(db: Db, goal: Term, frame: Frame, m: Frame)
    requires DbValid(db) && Acyclic(frame)
    ensures m in FindAssertions(db, goal, frame) <==>
            exists i :: 0 <= i < |db.assertions| && Match(goal, db.assertions[i], Some(frame)) == Some(m)
  {
    var checks := AssertionStreams(db, 0, goal, frame);
    FlattenMembers(checks, m);
    if m in FindAssertions(db, goal, frame) {
      var i :| 0 <= i < |checks| && m in checks[i];
      AssertionAnswer(db, goal, frame, m, i);
    }
    if exists i :: 0 <= i < |db.assertions| && Match(goal, db.assertions[i], Some(frame)) == Some(m) {
      var i :| 0 <= i < |db.assertions| && Match(goal, db.assertions[i], Some(frame)) == Some(m);
      AssertionAnswer(db, goal, frame, m, i);
    }
  }

  /** Stream `i` of findAssertions' flatmap holds `m` exactly when assertion `i` matches the query to `m`. */
  lemma AssertionAnswer(db: Db, goal: Term, frame: Frame, m: Frame, i: nat)
    requires DbValid(db) && Acyclic(frame) && i < |db.assertions|
    ensures m in AssertionStreams(db, 0, goal, frame)[i] <==> Match(goal, db.assertions[i], Some(frame)) == Some(m)
  {
    CheckAssertionMembers(goal, db.assertions[i], frame, m);
  }

  /** An answer from the assertions instantiates the query to one of them. */
  lemma FindAssertionsSound(db: Db, goal: Term, frame: Frame, m: Frame)
    requires DbValid(db) && Acyclic(frame) && m in FindAssertions(db, goal, frame)
    ensures Acyclic(m) && exists i :: Explains(db, goal, m, FromAssertion(i))
  {
    var i := AssertionOrigin(db, goal, frame, m);
    assert Explains(db, goal, m, FromAssertion(i));
  }

  /** The assertion an answer of findAssertions comes from. */
  lemma AssertionOrigin(db: Db, goal: Term, frame: Frame, m: Frame) returns (i: nat)
    requires DbValid(db) && Acyclic(frame) && m in FindAssertions(db, goal, frame)
    ensures Acyclic(m) && i < |db.assertions| && Instantiate(goal, m) == db.assertions[i]
  {
    FindAssertionsMembers(db, goal, frame, m);
    i :| 0 <= i < |db.assertions| && Match(goal, db.assertions[i], Some(frame)) == Some(m);
    MatchSound(goal, db.assertions[i], frame);
  }

  /** An answer through a rule instantiates the query to that answer's instance of the renamed conclusion. */
  lemma ApplyRuleSound(db: Db, rule: Rule, goal: Term, frame: Frame, depth: nat, count: nat, r: Frame)
    requires DbValid(db) && Acyclic(frame) && r in ApplyRule(db, rule, goal, frame, depth, count).value
    ensures Acyclic(r)
    ensures Instantiate(goal, r) == Instantiate(RenameVariables(rule.conclusion, count + 1), r)
  {
    var clean := RenameRule(rule, count + 1);
    var m := Unify(goal, clean.conclusion, Some(frame)).value;
    var body := QEval(db, clean.body, [m], depth, count + 1).value;
    var j :| 0 <= j < |body| && body[j] == r;
    UnifySound(goal, clean.conclusion, frame);
    EqualUnderExtension(goal, clean.conclusion, m, r);
  }

  /** The counter value at which applyRules, going through the rules from `k` on, applies rule `i`. */
  ghost function RuleCount(db: Db, k: nat, goal: Term, frame: Frame, depth: nat, count: nat, i: nat): nat
    requires DbValid(db) && Acyclic(frame) && k <= i < |db.rules|
    decreases i - k
  {
    if i == k then count
    else RuleCount(db, k + 1, goal, frame, depth, ApplyRule(db, db.rules[k], goal, frame, depth, count).count, i)
  }

  /** Stream `i - k` of the rules from `k` on is rule `i` applied at its counter value. */
  lemma {:induction false} RuleStreamsShape(db: Db, k: nat, goal: Term, frame: Frame, depth: nat, count: nat, i: nat)
    requires DbValid(db) && Acyclic(frame) && k <= i < |db.rules|
    ensures RuleStreams(db, k, goal, frame, depth, count).value[i - k]
            == ApplyRule(db, db.rules[i], goal, frame, depth, RuleCount(db, k, goal, frame, depth, count, i)).value
    decreases i - k
  {
    var here := ApplyRule(db, db.rules[k], goal, frame, depth, count);
    var rest := RuleStreams(db, k + 1, goal, frame, depth, here.count);
    assert RuleStreams(db, k, goal, frame, depth, count).value == [here.value] + rest.value;
    if i > k {
      RuleStreamsShape(db, k + 1, goal, frame, depth, here.count, i);
    }
  }

  lemma SimpleStreamsUnfold(db: Db, goal: Term, frames: seq<Frame>, fuel: nat, count: nat)
    requires DbValid(db) && AllAcyclic(frames) && frames != []
    ensures var applied := ApplyRules(db, goal, frames[0], fuel, count);
            SimpleStreams(db, goal, frames, fuel, count).value
            == [FindAssertions(db, goal, frames[0]) + applied.value]
               + SimpleStreams(db, goal, frames[1..], fuel, applied.count).value
  {
    var found := FindAssertions(db, goal, frames[0]);
    var applied := ApplyRules(db, goal, frames[0], fuel, count);
    assert AppendDelayed(found, () => applied.value) == found + applied.value;
  }

  /** Where an answer of a simple query comes from: assertion `index`, or rule `rule` renamed with `id`. */
  datatype Origin = FromAssertion(index: nat) | FromRule(rule: nat, id: nat)

  /** `r` instantiates the query to what `o` names: the assertion, or its instance of the renamed rule conclusion. */
  ghost predicate Explains(db: Db, goal: Term, r: Frame, o: Origin)
    requires Acyclic(r)
  {
    match o
    case FromAssertion(i) => i < |db.assertions| && Instantiate(goal, r) == db.assertions[i]
    case FromRule(k, id) =>
      k < |db.rules| && Instantiate(goal, r) == Instantiate(RenameVariables(db.rules[k].conclusion, id), r)
  }

  /** Every answer in stream `i` of simpleQuery's flatmap comes from an assertion or a rule. */
  lemma {:induction false} SimpleStreamsSound(db: Db, goal: Term, frames: seq<Frame>, fuel: nat, count: nat, i: nat, r: Frame)
    returns (o: Origin)
    requires DbValid(db) && AllAcyclic(frames) && i < |frames|
    requires r in SimpleStreams(db, goal, frames, fuel, count).value[i]
    ensures Acyclic(r) && Explains(db, goal, r, o)
    decreases i, 1
  {
    if i == 0 {
      o := SimpleStreamsFirst(db, goal, frames, fuel, count, r);
    } else {
      o := SimpleStreamsLaterSound(db, goal, frames, fuel, count, i, r);
    }
  }

  /** An answer in a later stream of simpleQuery's flatmap is an answer of the stream for the later frames. */
  lemma {:induction false} SimpleStreamsLaterSound(db: Db, goal: Term, frames: seq<Frame>, fuel: nat, count: nat, i: nat, r: Frame)
    returns (o: Origin)
    requires DbValid(db) && AllAcyclic(frames) && 0 < i < |frames|
    requires r in SimpleStreams(db, goal, frames, fuel, count).value[i]
    ensures Acyclic(r) && Explains(db, goal, r, o)
    decreases i, 0
  {
    var next := SimpleStreamsLater(db, goal, frames, fuel, count, i, r);
    o := SimpleStreamsSound(db, goal, frames[1..], fuel, next, i - 1, r);
  }

  /** An answer in the first stream of simpleQuery's flatmap comes from an assertion or a rule. */
  lemma SimpleStreamsFirst(db: Db, goal: Term, frames: seq<Frame>, fuel: nat, count: nat, r: Frame) returns (o: Origin)
    requires DbValid(db) && AllAcyclic(frames) && frames != []
    requires r in SimpleStreams(db, goal, frames, fuel, count).value[0]
    ensures Acyclic(r) && Explains(db, goal, r, o)
  {
    SimpleStreamsUnfold(db, goal, frames, fuel, count);
    if r in FindAssertions(db, goal, frames[0]) {
      var i := AssertionOrigin(db, goal, frames[0], r);
      o := FromAssertion(i);
    } else {
      var k, id := RuleOrigin(db, goal, frames[0], fuel, count, r);
      o := FromRule(k, id);
    }
  }

  /** A later stream of simpleQuery's flatmap is a stream of the later frames, from the counter the first frame leaves. */
  lemma SimpleStreamsLater(db: Db, goal: Term, frames: seq<Frame>, fuel: nat, count: nat, i: nat, r: Frame) returns (next: nat)
    requires DbValid(db) && AllAcyclic(frames) && 0 < i < |frames|
    requires r in SimpleStreams(db, goal, frames, fuel, count).value[i]
    ensures next == ApplyRules(db, goal, frames[0], fuel, count).count
    ensures AllAcyclic(frames[1..]) && r in SimpleStreams(db, goal, frames[1..], fuel, next).value[i - 1]
  {
    next := ApplyRules(db, goal, frames[0], fuel, count).count;
    SimpleStreamsUnfold(db, goal, frames, fuel, count);
  }

  /** An answer through applyRules instantiates the query to its instance of some renamed rule conclusion. */
  lemma ApplyRulesSound(db: Db, goal: Term, frame: Frame, fuel: nat, count: nat, r: Frame)
    requires DbValid(db) && Acyclic(frame) && r in ApplyRules(db, goal, frame, fuel, count).value
    ensures Acyclic(r) && exists k, id :: Explains(db, goal, r, FromRule(k, id))
  {
    var k, id := RuleOrigin(db, goal, frame, fuel, count, r);
    assert Explains(db, goal, r, FromRule(k, id));
  }

  /** The rule, and the id it was renamed with, that an answer of applyRules comes from. */
  lemma RuleOrigin(db: Db, goal: Term, frame: Frame, fuel: nat, count: nat, r: Frame) returns (k: nat, id: nat)
    requires DbValid(db) && Acyclic(frame) && r in ApplyRules(db, goal, frame, fuel, count).value
    ensures Acyclic(r) && k < |db.rules|
    ensures Instantiate(goal, r) == Instantiate(RenameVariables(db.rules[k].conclusion, id), r)
  {
    var depth;
    k, depth := ApplyRulesMember(db, goal, frame, fuel, count, r);
    id := RuleStreamOrigin(db, goal, frame, depth, count, k, r);
  }

  /** The id rule `j` was renamed with, for an answer in its stream of applyRules' flatmap. */
  lemma RuleStreamOrigin(db: Db, goal: Term, frame: Frame, depth: nat, count: nat, j: nat, r: Frame) returns (id: nat)
    requires DbValid(db) && Acyclic(frame) && j < |db.rules|
    requires r in RuleStreams(db, 0, goal, frame, depth, count).value[j]
    ensures Acyclic(r)
    ensures Instantiate(goal, r) == Instantiate(RenameVariables(db.rules[j].conclusion, id), r)
  {
    var c := RuleStreamMember(db, goal, frame, depth, count, j, r);
    ApplyRuleSound(db, db.rules[j], goal, frame, depth, c, r);
    id := c + 1;
  }

  /** applyRules gives nothing without fuel; with fuel each answer comes from the stream of some rule `j`. */
  lemma ApplyRulesMember(db: Db, goal: Term, frame: Frame, fuel: nat, count: nat, r: Frame) returns (j: nat, depth: nat)
    requires DbValid(db) && Acyclic(frame) && r in ApplyRules(db, goal, frame, fuel, count).value
    ensures fuel == depth + 1 && j < |db.rules| && r in RuleStreams(db, 0, goal, frame, depth, count).value[j]
  {
    assert fuel != 0;
    depth := fuel - 1;
    var run := RuleStreams(db, 0, goal, frame, depth, count);
    ApplyRulesUnfold(db, goal, frame, fuel, count, run.value, run.count);
    FlattenMembers(run.value, r);
    j :| 0 <= j < |run.value| && r in run.value[j];
  }

  /** An answer in rule `j`'s stream of applyRules' flatmap is an answer of rule `j` at counter `c`. */
  lemma RuleStreamMember(db: Db, goal: Term, frame: Frame, depth: nat, count: nat, j: nat, r: Frame) returns (c: nat)
    requires DbValid(db) && Acyclic(frame) && j < |db.rules|
    requires r in RuleStreams(db, 0, goal, frame, depth, count).value[j]
    ensures c == RuleCount(db, 0, goal, frame, depth, count, j)
    ensures r in ApplyRule(db, db.rules[j], goal, frame, depth, c).value
  {
    c := RuleCount(db, 0, goal, frame, depth, count, j);
    RuleStreamsShape(db, 0, goal, frame, depth, count, j);
  }

  /**
   * Every answer of a simple query instantiates the query either to an
   * assertion of the database or to the answer's instance of the (renamed)
   * conclusion of one of its rules.
   */
  lemma SimpleQuerySound(db: Db, goal: Term, frames: seq<Frame>, fuel: nat, count: nat, r: Frame)
    requires DbValid(db) && AllAcyclic(frames) && r in SimpleQuery(db, goal, frames, fuel, count).value
    ensures Acyclic(r) && exists o :: Explains(db, goal, r, o)
  {
    var streams := SimpleStreams(db, goal, frames, fuel, count).value;
    assert SimpleQuery(db, goal, frames, fuel, count).value == FlattenDelayed(streams);
    FlattenMembers(streams, r);
    var i :| 0 <= i < |streams| && r in streams[i];
    var o := SimpleStreamsSound(db, goal, frames, fuel, count, i, r);
  }

  // ---- Dispatch

  /** `and` with no conjuncts passes its input frames through unchanged. */
  lemma AndWithoutConjuncts(db: Db, frames: seq<Frame>, fuel: nat, count: nat)
    requires DbValid(db) && AllAcyclic(frames)
    ensures QEval(db, List([Atom("and")]), frames, fuel, count) == Run(frames, count)
  {
    assert IsAnd(List([Atom("and")]));
  }

  /** `or` with no disjuncts has no answers. */
  lemma OrWithoutDisjuncts(db: Db, frames: seq<Frame>, fuel: nat, count: nat)
    requires DbValid(db) && AllAcyclic(frames)
    ensures QEval(db, List([Atom("or")]), frames, fuel, count) == Run([], count)
  {
    assert !IsAnd(List([Atom("or")])) && IsOr(List([Atom("or")]));
  }

  /** A conjunction with one more conjunct runs it on the answers of the others. */
  lemma {:induction false} AndSnoc(db: Db, goal: Term, i: nat, frames: seq<Frame>, fuel: nat, count: nat, last: Term)
    requires DbValid(db) && AllAcyclic(frames) && goal.List? && i <= |goal.items|
    ensures var before := AndQuery(db, goal, i, frames, fuel, count);
      AndQuery(db, List(goal.items + [last]), i, frames, fuel, count) == QEval(db, last, before.value, fuel, before.count)
    decreases |goal.items| - i
  {
    if i < |goal.items| {
      var step := QEval(db, goal.items[i], frames, fuel, count);
      AndSnoc(db, goal, i + 1, step.value, fuel, step.count, last);
      AndSnocStep(db, goal, i, frames, fuel, count, last, step);
    } else {
      AndSnocLast(db, goal, frames, fuel, count, last);
    }
  }

  lemma AndSnocStep(db: Db, goal: Term, i: nat, frames: seq<Frame>, fuel: nat, count: nat, last: Term, step: Run<seq<Frame>>)
    requires DbValid(db) && AllAcyclic(frames) && goal.List? && i < |goal.items|
    requires step == QEval(db, goal.items[i], frames, fuel, count)
    requires var before := AndQuery(db, goal, i + 1, step.value, fuel, step.count);
      AndQuery(db, List(goal.items + [last]), i + 1, step.value, fuel, step.count) == QEval(db, last, before.value, fuel, before.count)
    ensures var before := AndQuery(db, goal, i, frames, fuel, count);
      AndQuery(db, List(goal.items + [last]), i, frames, fuel, count) == QEval(db, last, before.value, fuel, before.count)
  {
    var longer := List(goal.items + [last]);
    assert longer.items[i] == goal.items[i];
    AndStep(db, goal, i, frames, fuel, count, step);
    AndStep(db, longer, i, frames, fuel, count, step);
  }

  lemma AndSnocLast(db: Db, goal: Term, frames: seq<Frame>, fuel: nat, count: nat, last: Term)
    requires DbValid(db) && AllAcyclic(frames) && goal.List?
    ensures var before := AndQuery(db, goal, |goal.items|, frames, fuel, count);
      AndQuery(db, List(goal.items + [last]), |goal.items|, frames, fuel, count) == QEval(db, last, before.value, fuel, before.count)
  {
    var longer := List(goal.items + [last]);
    var i := |goal.items|;
    assert longer.items[i] == last;
    var step := QEval(db, last, frames, fuel, count);
    AndEnd(db, goal, frames, fuel, count);
    AndStep(db, longer, i, frames, fuel, count, step);
    AndEnd(db, longer, step.value, fuel, step.count);
  }

  lemma AndStep(db: Db, goal: Term, i: nat, frames: seq<Frame>, fuel: nat, count: nat, step: Run<seq<Frame>>)
    requires DbValid(db) && AllAcyclic(frames) && goal.List? && i < |goal.items|
    requires step == QEval(db, goal.items[i], frames, fuel, count)
    ensures AndQuery(db, goal, i, frames, fuel, count) == AndQuery(db, goal, i + 1, step.value, fuel, step.count)
  {
  }

  lemma AndEnd(db: Db, goal: Term, frames: seq<Frame>, fuel: nat, count: nat)
    requires DbValid(db) && AllAcyclic(frames) && goal.List?
    ensures AndQuery(db, goal, |goal.items|, frames, fuel, count) == Run(frames, count)
  {
  }

  // ---- No input frames, no answers

  lemma {:induction false} NoFramesNoAnswers(db: Db, goal: Term, fuel: nat, count: nat)
    requires DbValid(db)
    ensures QEval(db, goal, [], fuel, count).value == []
    decreases goal, 1, 0
  {
    if IsAnd(goal) {
      AndNoFrames(db, goal, 1, fuel, count);
    } else if IsOr(goal) {
      OrNoFrames(db, goal, 1, fuel, count);
    }
  }

  lemma {:induction false} AndNoFrames(db: Db, goal: Term, i: nat, fuel: nat, count: nat)
    requires DbValid(db) && goal.List? && i <= |goal.items|
    ensures AndQuery(db, goal, i, [], fuel, count).value == []
    decreases goal, 0, |goal.items| - i
  {
    if i < |goal.items| {
      NoFramesNoAnswers(db, goal.items[i], fuel, count);
      AndNoFrames(db, goal, i + 1, fuel, QEval(db, goal.items[i], [], fuel, count).count);
    }
  }

  lemma {:induction false} OrNoFrames(db: Db, goal: Term, i: nat, fuel: nat, count: nat)
    requires DbValid(db) && goal.List? && i <= |goal.items|
    ensures OrQuery(db, goal, i, [], [], fuel, count).value == []
    decreases goal, 0, |goal.items| - i
  {
    if i < |goal.items| {
      NoFramesNoAnswers(db, goal.items[i], fuel, count);
      var step := QEval(db, goal.items[i], [], fuel, count);
      assert InterleaveDelayed([], () => step.value) == [];
      OrNoFrames(db, goal, i + 1, fuel, step.count);
    }
  }

  // ---- Disjunction

  /** The answers of each disjunct from `i` on, each evaluated on the input frames in turn. */
  ghost function OrParts(db: Db, goal: Term, i: nat, frames: seq<Frame>, fuel: nat, count: nat): seq<seq<Frame>>
    requires DbValid(db) && AllAcyclic(frames) && goal.List? && i <= |goal.items|
    decreases |goal.items| - i
  {
    if i == |goal.items| then []
    else
      var step := QEval(db, goal.items[i], frames, fuel, count);
      [step.value] + OrParts(db, goal, i + 1, frames, fuel, step.count)
  }

  lemma OrQueryUnfold(db: Db, goal: Term, i: nat, acc: seq<Frame>, frames: seq<Frame>, fuel: nat, count: nat)
    requires DbValid(db) && AllAcyclic(frames) && Descends(acc, frames) && goal.List? && i < |goal.items|
    ensures var step := QEval(db, goal.items[i], frames, fuel, count);
            Descends(Interleave(acc, step.value), frames) &&
            OrQuery(db, goal, i, acc, frames, fuel, count)
            == OrQuery(db, goal, i + 1, Interleave(acc, step.value), frames, fuel, step.count)
  {
    var step := QEval(db, goal.items[i], frames, fuel, count);
    DescendsInterleave(acc, step.value, frames);
  }

  /** The intended `or` delivers the answers of all the disjuncts, each as often as it gives it. */
  lemma {:induction false} OrCollects(db: Db, goal: Term, i: nat, acc: seq<Frame>, frames: seq<Frame>, fuel: nat, count: nat)
    requires DbValid(db) && AllAcyclic(frames) && Descends(acc, frames) && goal.List? && i <= |goal.items|
    ensures multiset(OrQuery(db, goal, i, acc, frames, fuel, count).value)
            == multiset(acc) + multiset(Concat(OrParts(db, goal, i, frames, fuel, count)))
    decreases |goal.items| - i
  {
    if i < |goal.items| {
      var step := QEval(db, goal.items[i], frames, fuel, count);
      var next := Interleave(acc, step.value);
      OrQueryUnfold(db, goal, i, acc, frames, fuel, count);
      OrCollects(db, goal, i + 1, next, frames, fuel, step.count);
      var parts := OrParts(db, goal, i, frames, fuel, count);
      var rest := OrParts(db, goal, i + 1, frames, fuel, step.count);
      assert parts == [step.value] + rest;
      assert parts[1..] == rest;
      assert Concat(parts) == step.value + Concat(rest);
      assert multiset(next) == multiset(acc) + multiset(step.value);
      assert multiset(Concat(parts)) == multiset(step.value) + multiset(Concat(rest));
      assert multiset(OrQuery(db, goal, i, acc, frames, fuel, count).value)
             == multiset(next) + multiset(Concat(rest));
    } else {
      assert OrParts(db, goal, i, frames, fuel, count) == [];
      assert OrQuery(db, goal, i, acc, frames, fuel, count).value == acc;
    }
  }

  /** The first stream with elements, or none. */
  function FirstNonEmpty<T>(ss: seq<seq<T>>): seq<T> {
    if ss == [] then [] else if ss[0] != [] then ss[0] else FirstNonEmpty(ss[1..])
  }

  /** orQuery as written delivers the answers of the first disjunct that has any, and nothing else. */
  lemma OrAsWrittenFirstNonEmpty(db: Db, goal: Term, i: nat, acc: seq<Frame>, frames: seq<Frame>, fuel: nat, count: nat)
    requires DbValid(db) && AllAcyclic(frames) && Descends(acc, frames) && goal.List? && i <= |goal.items|
    ensures OrQueryAsWritten(db, goal, i, acc, frames, fuel, count).value
            == if acc != [] then acc else FirstNonEmpty(OrParts(db, goal, i, frames, fuel, count))
  {
    if acc != [] {
      OrAsWrittenKeeps(db, goal, i, acc, frames, fuel, count);
    } else {
      OrAsWrittenFromEmpty(db, goal, i, frames, fuel, count);
    }
  }

  /** Once orQuery as written holds an answer, the later disjuncts are never run. */
  lemma {:induction false} OrAsWrittenKeeps(db: Db, goal: Term, i: nat, acc: seq<Frame>, frames: seq<Frame>, fuel: nat, count: nat)
    requires DbValid(db) && AllAcyclic(frames) && Descends(acc, frames) && goal.List? && i <= |goal.items| && acc != []
    ensures OrQueryAsWritten(db, goal, i, acc, frames, fuel, count).value == acc
    decreases |goal.items| - i
  {
    if i < |goal.items| {
      assert InterleaveDelayed(acc, () => []) == acc;
      OrAsWrittenKeeps(db, goal, i + 1, acc, frames, fuel, count);
    }
  }

  /** From no answers yet, orQuery as written ends with those of the first disjunct that has any. */
  lemma {:induction false} OrAsWrittenFromEmpty(db: Db, goal: Term, i: nat, frames: seq<Frame>, fuel: nat, count: nat)
    requires DbValid(db) && AllAcyclic(frames) && goal.List? && i <= |goal.items|
    ensures Descends([], frames)
    ensures OrQueryAsWritten(db, goal, i, [], frames, fuel, count).value
            == FirstNonEmpty(OrParts(db, goal, i, frames, fuel, count))
    decreases |goal.items| - i
  {
    assert Descends([], frames);
    if i < |goal.items| {
      var step := QEval(db, goal.items[i], frames, fuel, count);
      var parts := OrParts(db, goal, i, frames, fuel, count);
      assert parts == [step.value] + OrParts(db, goal, i + 1, frames, fuel, step.count);
      assert parts[1..] == OrParts(db, goal, i + 1, frames, fuel, step.count);
      assert InterleaveDelayed([], () => step.value) == step.value;
      if step.value != [] {
        OrAsWrittenKeeps(db, goal, i + 1, step.value, frames, fuel, step.count);
      } else {
        OrAsWrittenFromEmpty(db, goal, i + 1, frames, fuel, step.count);
      }
    }
  }

  // ---- Negation

  /** The counter value at which notQuery tests frame `i`. */
  ghost function NotCount(db: Db, goal: Term, frames: seq<Frame>, fuel: nat, count: nat, i: nat): nat
    requires DbValid(db) && AllAcyclic(frames) && IsNot(goal) && i < |frames|
    decreases i
  {
    if i == 0 then count
    else NotCount(db, goal, frames[1..], fuel, NotFilter(db, goal, frames[0], fuel, count).count, i - 1)
  }

  lemma {:induction false} NotStreamsExact(db: Db, goal: Term, frames: seq<Frame>, fuel: nat, count: nat, i: nat)
    requires DbValid(db) && AllAcyclic(frames) && IsNot(goal) && i < |frames|
    ensures NotStreams(db, goal, frames, fuel, count).value[i]
            == if NotFilter(db, goal, frames[i], fuel, NotCount(db, goal, frames, fuel, count, i)).value == []
               then [frames[i]] else []
    decreases i
  {
    if i > 0 {
      var sub := NotFilter(db, goal, frames[0], fuel, count);
      NotStreamsExact(db, goal, frames[1..], fuel, sub.count, i - 1);
      assert frames[1..][i - 1] == frames[i];
    }
  }

  /**
   * notQuery passes an input frame, unchanged, exactly when the negated query
   * has no answer for it; it adds no other frame.
   */
  lemma NotQueryExact(db: Db, goal: Term, frames: seq<Frame>, fuel: nat, count: nat, o: Frame)
    requires DbValid(db) && AllAcyclic(frames) && IsNot(goal)
    ensures o in NotQuery(db, goal, frames, fuel, count).value <==>
            exists i :: 0 <= i < |frames| && o == frames[i] && NoAnswerAt(db, goal, frames, fuel, count, i)
  {
    var streams := NotStreams(db, goal, frames, fuel, count).value;
    assert NotQuery(db, goal, frames, fuel, count).value == FlattenDelayed(streams);
    FlattenMembers(streams, o);
    if o in FlattenDelayed(streams) {
      var i :| 0 <= i < |streams| && o in streams[i];
      NotStreamsExact(db, goal, frames, fuel, count, i);
      assert o == frames[i] && NoAnswerAt(db, goal, frames, fuel, count, i);
    }
    if exists i :: 0 <= i < |frames| && o == frames[i] && NoAnswerAt(db, goal, frames, fuel, count, i) {
      var i :| 0 <= i < |frames| && o == frames[i] && NoAnswerAt(db, goal, frames, fuel, count, i);
      NotStreamsExact(db, goal, frames, fuel, count, i);
      assert o in streams[i];
    }
  }

  /** The negated query has no answer for input frame `i`, run at the counter notQuery reaches it with. */
  ghost predicate NoAnswerAt(db: Db, goal: Term, frames: seq<Frame>, fuel: nat, count: nat, i: nat)
    requires DbValid(db) && AllAcyclic(frames) && IsNot(goal) && i < |frames|
  {
    NotFilter(db, goal, frames[i], fuel, NotCount(db, goal, frames, fuel, count, i)).value == []
  }

  // ---- A disjunction whose later disjunct is lost by orQuery as written

  /** The database with the two facts `p` and `q`, the query `(or p q)`, and the empty input frame. */
  function TwoFacts(): (db: Db)
    ensures DbValid(db) && |db.assertions| == 2 && db.rules == []
  {
    var db := Db([Atom("p"), Atom("q")], []);
    assert forall i :: 0 <= i < |db.assertions| ==> db.assertions[i].Atom?;
    db
  }

  function POrQ(): (q: Term)
    ensures IsOr(q) && |q.items| == 3
  {
    List([Atom("or"), Atom("p"), Atom("q")])
  }

  /** With no fuel, asking for either fact of TwoFacts answers once, with the input frame. */
  lemma FactQuery(name: string, f: Frame, c: nat)
    requires name == "p" || name == "q"
    requires Acyclic(f)
    ensures QEval(TwoFacts(), Atom(name), [f], 0, c) == Run([f], c)
  {
    var db := TwoFacts();
    var goal := Atom(name);
    FactStreams(name, f, c);
    SimpleQueryOf(db, goal, [f], 0, c, [[f]], c);
    FlattenOne([f]);
  }

  /** A query that is no `and`, `or` or `not` flattens the streams of simpleQuery's flatmap. */
  lemma SimpleQueryOf(db: Db, goal: Term, frames: seq<Frame>, fuel: nat, count: nat, streams: seq<seq<Frame>>, after: nat)
    requires DbValid(db) && AllAcyclic(frames) && !IsAnd(goal) && !IsOr(goal) && !IsNot(goal)
    requires SimpleStreams(db, goal, frames, fuel, count) == Run(streams, after)
    ensures QEval(db, goal, frames, fuel, count) == Run(FlattenDelayed(streams), after)
  {
  }

  /** With no fuel, simpleQuery's flatmap over the one frame `f` holds the one stream `[f]`. */
  lemma FactStreams(name: string, f: Frame, c: nat)
    requires name == "p" || name == "q"
    requires Acyclic(f)
    ensures SimpleStreams(TwoFacts(), Atom(name), [f], 0, c) == Run([[f]], c)
  {
    var db := TwoFacts();
    var goal := Atom(name);
    var found := FindAssertions(db, goal, f);
    var applied := ApplyRules(db, goal, f, 0, c);
    FactFind(name, f);
    assert applied == Run([], c);
    assert found + applied.value == [f];
    assert [f][1..] == [];
    assert SimpleStreams(db, goal, [], 0, c) == Run([], c);
    SimpleStreamsUnfold(db, goal, [f], 0, c);
    SimpleStreamsCount(db, goal, [f], 0, c);
    var ss := SimpleStreams(db, goal, [f], 0, c);
    var rest := SimpleStreams(db, goal, [f][1..], 0, applied.count);
    assert rest == Run([], c);
    assert ss.count == c;
    assert ss.value == [found + applied.value] + rest.value;
    assert ss.value == [[f]];
  }

  lemma SimpleStreamsCount(db: Db, goal: Term, frames: seq<Frame>, fuel: nat, count: nat)
    requires DbValid(db) && AllAcyclic(frames) && frames != []
    ensures AllAcyclic(frames[1..])
    ensures SimpleStreams(db, goal, frames, fuel, count).count
            == SimpleStreams(db, goal, frames[1..], fuel, ApplyRules(db, goal, frames[0], fuel, count).count).count
  {
  }

  /** Exactly one assertion of TwoFacts matches either fact. */
  lemma FactFind(name: string, f: Frame)
    requires name == "p" || name == "q"
    requires Acyclic(f)
    ensures FindAssertions(TwoFacts(), Atom(name), f) == [f]
  {
    var db := TwoFacts();
    var goal := Atom(name);
    var checks := AssertionStreams(db, 0, goal, f);
    assert checks == [CheckAssertion(goal, Atom("p"), f), CheckAssertion(goal, Atom("q"), f)];
    if name == "p" {
      assert checks == [[f], []];
      FlattenPair([f], []);
    } else {
      assert checks == [[], [f]];
      FlattenPair([], [f]);
    }
  }

  lemma FlattenOne<T>(a: seq<T>)
    ensures FlattenDelayed([a]) == a
  {
    assert [a][1..] == [];
    assert Interleave(a, []) == a by {
      InterleaveEmpty(a);
    }
  }

  lemma FlattenPair<T>(a: seq<T>, b: seq<T>)
    ensures FlattenDelayed([a, b]) == Interleave(a, b)
  {
    assert [a, b][1..] == [b];
    FlattenOne(b);
  }

  lemma {:induction false} InterleaveEmpty<T>(a: seq<T>)
    ensures Interleave(a, []) == a
  {
    if a != [] {
      assert Interleave([], a[1..]) == a[1..];
    }
  }

  lemma OrFactStep(i: nat, acc: seq<Frame>, f: Frame)
    requires 1 <= i < 3 && Acyclic(f) && Descends(acc, [f])
    ensures Descends(Interleave(acc, [f]), [f])
    ensures OrQuery(TwoFacts(), POrQ(), i, acc, [f], 0, 0)
            == OrQuery(TwoFacts(), POrQ(), i + 1, Interleave(acc, [f]), [f], 0, 0)
  {
    var goal := POrQ();
    assert goal.items[i] == Atom(if i == 1 then "p" else "q");
    FactQuery(if i == 1 then "p" else "q", f, 0);
    OrQueryUnfold(TwoFacts(), goal, i, acc, [f], 0, 0);
  }

  /** `acc` interleaved `n` times with the single answer `f`. */
  ghost function AddEach(acc: seq<Frame>, f: Frame, n: nat): seq<Frame>
    decreases n
  {
    if n == 0 then acc else AddEach(Interleave(acc, [f]), f, n - 1)
  }

  lemma {:induction false} OrRest(i: nat, acc: seq<Frame>, f: Frame)
    requires 1 <= i <= 3 && Acyclic(f) && Descends(acc, [f])
    ensures OrQuery(TwoFacts(), POrQ(), i, acc, [f], 0, 0).value == AddEach(acc, f, 3 - i)
    decreases 3 - i
  {
    if i < 3 {
      OrFactStep(i, acc, f);
      OrRest(i + 1, Interleave(acc, [f]), f);
    }
  }

  /**
   * On the facts `p`, `q` the intended `(or p q)` answers twice for any input
   * frame, once per disjunct.
   */
  lemma OrAnswersEachDisjunct(f: Frame)
    requires Acyclic(f)
    ensures Descends([], [f])
    ensures OrQuery(TwoFacts(), POrQ(), 1, [], [f], 0, 0).value == [f, f]
  {
    OrRest(1, [], f);
    AddEachTwice(f);
  }

  lemma AddEachTwice(f: Frame)
    ensures AddEach([], f, 2) == [f, f]
  {
    assert Interleave([], [f]) == [f];
    assert Interleave([f], [f]) == [f, f];
  }

  /** orQuery as written answers `(or p q)` on the same facts once: the answer of `q` is lost. */
  lemma OrAsWrittenLosesAnswers(f: Frame)
    requires Acyclic(f)
    ensures Descends([], [f])
    ensures OrQueryAsWritten(TwoFacts(), POrQ(), 1, [], [f], 0, 0).value == [f]
  {
    var db := TwoFacts();
    var goal := POrQ();
    FactQuery("p", f, 0);
    assert goal.items[1] == Atom("p");
    assert InterleaveDelayed([], () => [f]) == [f];
    DescendsRefl([f]);
    assert OrQueryAsWritten(db, goal, 1, [], [f], 0, 0) == OrQueryAsWritten(db, goal, 2, [f], [f], 0, 0);
    assert InterleaveDelayed([f], () => []) == [f];
    assert OrQueryAsWritten(db, goal, 2, [f], [f], 0, 0) == OrQueryAsWritten(db, goal, 3, [f], [f], 0, 0);
  }
}
