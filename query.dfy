/**
 * Query evaluation (logic_programming.js:100-106, 141-150, 307-348): qeval
 * dispatches on the shape of the query to simple, and, or and not queries,
 * each mapping the stream of input frames to the stream of answer frames.
 *
 * Streams are the finite sequences of frames they deliver. The rule counter
 * of the source (Rule.idCount) is threaded through as `count`: every rule
 * application increments it and renames the rule with the new value. Rule
 * application is bounded by `fuel`, the depth of nested rule applications;
 * with fuel 0 a simple query sees only the assertions.
 */
module Query {
  import opened Wrappers
  import opened Terms
  import opened Frames
  import opened Resolve
  import opened Matching
  import opened Unification
  import opened Renaming
  import opened Streams

  /** The contents of a database: its assertions and its rules, in the order they were added. */
  datatype Db = Db(assertions: seq<Term>, rules: seq<Rule>)

  /** A value computed together with the rule counter it leaves behind. */
  datatype Run<T> = Run(value: T, count: nat)

  /** Assertions are ground. */
  ghost predicate DbValid(db: Db) {
    forall i :: 0 <= i < |db.assertions| ==> Ground(db.assertions[i])
  }

  ghost predicate AllAcyclic(fs: seq<Frame>) {
    forall i :: 0 <= i < |fs| ==> Acyclic(fs[i])
  }

  /** Every frame of `out` is an acyclic extension of `f`. */
  ghost predicate FromFrame(out: seq<Frame>, f: Frame) {
    forall j :: 0 <= j < |out| ==> Acyclic(out[j]) && Extends(out[j], f)
  }

  /** Every frame of `out` is an acyclic extension of some frame of `inp`. */
  ghost predicate Descends(out: seq<Frame>, inp: seq<Frame>) {
    AllAcyclic(out) && forall j :: 0 <= j < |out| ==> ExtendsSome(out[j], inp)
  }

  ghost predicate ExtendsSome(f: Frame, inp: seq<Frame>) {
    exists i :: 0 <= i < |inp| && Extends(f, inp[i])
  }

  predicate IsTagged(t: Term, tag: string) {
    t.List? && |t.items| > 0 && t.items[0] == Atom(tag)
  }

  predicate IsAnd(t: Term) { IsTagged(t, "and") }
  predicate IsOr(t: Term) { IsTagged(t, "or") }
  predicate IsNot(t: Term) { IsTagged(t, "not") }

  /** qeval. */
  function QEval(db: Db, goal: Term, frames: seq<Frame>, fuel: nat, count: nat): (r: Run<seq<Frame>>)
    requires DbValid(db) && AllAcyclic(frames)
    ensures Descends(r.value, frames) && r.count >= count
    decreases fuel, goal, 6, 0
  {
    if IsAnd(goal) then AndQuery(db, goal, 1, frames, fuel, count)
    else if IsOr(goal) then OrQuery(db, goal, 1, [], frames, fuel, count)
    else if IsNot(goal) then NotQuery(db, goal, frames, fuel, count)
    else SimpleQuery(db, goal, frames, fuel, count)
  }

  /** andQuery from conjunct `i` on: each conjunct runs on the answers of the ones before it. */
  function AndQuery(db: Db, goal: Term, i: nat, frames: seq<Frame>, fuel: nat, count: nat): (r: Run<seq<Frame>>)
    requires DbValid(db) && AllAcyclic(frames) && goal.List? && i <= |goal.items|
    ensures Descends(r.value, frames) && r.count >= count
    decreases fuel, goal, 5, |goal.items| - i
  {
    if i == |goal.items| then
      DescendsRefl(frames);
      Run(frames, count)
    else
      var step := QEval(db, goal.items[i], frames, fuel, count);
      var r := AndQuery(db, goal, i + 1, step.value, fuel, step.count);
      DescendsTrans(r.value, step.value, frames);
      r
  }

  /**
   * orQuery from disjunct `i` on, with the per-disjunct capture the loop
   * evidently intends: `acc` interleaved with the answers of each disjunct in turn.
   */
  function OrQuery(db: Db, goal: Term, i: nat, acc: seq<Frame>, frames: seq<Frame>, fuel: nat, count: nat): (r: Run<seq<Frame>>)
    requires DbValid(db) && AllAcyclic(frames) && Descends(acc, frames) && goal.List? && i <= |goal.items|
    ensures Descends(r.value, frames) && r.count >= count
    decreases fuel, goal, 5, |goal.items| - i
  {
    if i == |goal.items| then Run(acc, count)
    else
      var step := QEval(db, goal.items[i], frames, fuel, count);
      var next := InterleaveDelayed(acc, () => step.value);
      DescendsInterleave(acc, step.value, frames);
      OrQuery(db, goal, i + 1, next, frames, fuel, step.count)
  }

  /**
   * orQuery as the source's loop behaves: every delayed disjunct reads the
   * loop variable after the loop has ended, i.e. the item past the end of the
   * query, a missing query with no answers. So a disjunct is evaluated only
   * while the answers gathered so far are empty (then the delayed stream is
   * forced at once), and the first disjunct with answers is the last one that counts.
   */
  function OrQueryAsWritten(db: Db, goal: Term, i: nat, acc: seq<Frame>, frames: seq<Frame>, fuel: nat, count: nat): (r: Run<seq<Frame>>)
    requires DbValid(db) && AllAcyclic(frames) && Descends(acc, frames) && goal.List? && i <= |goal.items|
    ensures Descends(r.value, frames) && r.count >= count
    decreases fuel, goal, 5, |goal.items| - i
  {
    if i == |goal.items| then Run(acc, count)
    else if acc == [] then
      var step := QEval(db, goal.items[i], frames, fuel, count);
      OrQueryAsWritten(db, goal, i + 1, InterleaveDelayed(acc, () => step.value), frames, fuel, step.count)
    else
      OrQueryAsWritten(db, goal, i + 1, InterleaveDelayed(acc, () => []), frames, fuel, count)
  }

  /** notQuery: a frame passes, unchanged, when the negated query has no answer for it. */
  function NotQuery(db: Db, goal: Term, frames: seq<Frame>, fuel: nat, count: nat): (r: Run<seq<Frame>>)
    requires DbValid(db) && AllAcyclic(frames) && IsNot(goal)
    ensures Descends(r.value, frames) && r.count >= count
    decreases fuel, goal, 5, 0
  {
    var m := NotStreams(db, goal, frames, fuel, count);
    FlattenDescends(m.value, frames);
    Run(FlattenDelayed(m.value), m.count)
  }

  /** The negated query of a `not`; asking for a missing one gives no answers. */
  function NotFilter(db: Db, goal: Term, frame: Frame, fuel: nat, count: nat): (r: Run<seq<Frame>>)
    requires DbValid(db) && Acyclic(frame) && IsNot(goal)
    ensures r.count >= count
    decreases fuel, goal, 4, 0
  {
    if |goal.items| >= 2 then QEval(db, goal.items[1], [frame], fuel, count) else Run([], count)
  }

  /** The per-frame streams of notQuery's flatmap. */
  function NotStreams(db: Db, goal: Term, frames: seq<Frame>, fuel: nat, count: nat): (r: Run<seq<seq<Frame>>>)
    requires DbValid(db) && AllAcyclic(frames) && IsNot(goal)
    ensures |r.value| == |frames| && r.count >= count
    ensures forall i :: 0 <= i < |frames| ==> r.value[i] == [] || r.value[i] == [frames[i]]
    decreases fuel, goal, 4, |frames|
  {
    if frames == [] then Run([], count)
    else
      var sub := NotFilter(db, goal, frames[0], fuel, count);
      var rest := NotStreams(db, goal, frames[1..], fuel, sub.count);
      var here := if sub.value == [] then Singleton(frames[0]) else [];
      Run([here] + rest.value, rest.count)
  }

  /** simpleQuery: for each frame, the matching assertions followed by the applicable rules. */
  function SimpleQuery(db: Db, goal: Term, frames: seq<Frame>, fuel: nat, count: nat): (r: Run<seq<Frame>>)
    requires DbValid(db) && AllAcyclic(frames)
    ensures Descends(r.value, frames) && r.count >= count
    decreases fuel, goal, 5, 0
  {
    var m := SimpleStreams(db, goal, frames, fuel, count);
    FlattenDescends(m.value, frames);
    Run(FlattenDelayed(m.value), m.count)
  }

  /** The per-frame streams of simpleQuery's flatmap. */
  function SimpleStreams(db: Db, goal: Term, frames: seq<Frame>, fuel: nat, count: nat): (r: Run<seq<seq<Frame>>>)
    requires DbValid(db) && AllAcyclic(frames)
    ensures |r.value| == |frames| && r.count >= count
    ensures forall i :: 0 <= i < |frames| ==> FromFrame(r.value[i], frames[i])
    decreases fuel, goal, 4, |frames|
  {
    if frames == [] then Run([], count)
    else
      var found := FindAssertions(db, goal, frames[0]);
      var applied := ApplyRules(db, goal, frames[0], fuel, count);
      var here := AppendDelayed(found, () => applied.value);
      FromFrameAppend(found, applied.value, frames[0]);
      var rest := SimpleStreams(db, goal, frames[1..], fuel, applied.count);
      ConsFromFrames(here, rest.value, frames);
      Run([here] + rest.value, rest.count)
  }

  /** Assertion.checkAssertion. */
  function CheckAssertion(goal: Term, assertion: Term, frame: Frame): (r: seq<Frame>)
    requires Ground(assertion) && Acyclic(frame)
    ensures FromFrame(r, frame)
  {
    match Match(goal, assertion, Some(frame))
    case Some(m) => Singleton(m)
    case None => []
  }

  /** Database.findAssertions: check the query against every assertion, in order. */
  function FindAssertions(db: Db, goal: Term, frame: Frame): (r: seq<Frame>)
    requires DbValid(db) && Acyclic(frame)
    ensures FromFrame(r, frame)
  {
    var checks := AssertionStreams(db, 0, goal, frame);
    FlattenFromFrame(checks, frame);
    FlattenDelayed(checks)
  }

  /** The per-assertion streams of findAssertions' flatmap, for the assertions from `k` on. */
  function AssertionStreams(db: Db, k: nat, goal: Term, frame: Frame): (r: seq<seq<Frame>>)
    requires DbValid(db) && Acyclic(frame) && k <= |db.assertions|
    ensures |r| == |db.assertions| - k
    ensures forall i :: 0 <= i < |r| ==> r[i] == CheckAssertion(goal, db.assertions[k + i], frame)
    decreases |db.assertions| - k
  {
    if k == |db.assertions| then []
    else [CheckAssertion(goal, db.assertions[k], frame)] + AssertionStreams(db, k + 1, goal, frame)
  }

  /** Database.applyRules: the answers of every rule's body where its conclusion unifies with the query. */
  function ApplyRules(db: Db, goal: Term, frame: Frame, fuel: nat, count: nat): (r: Run<seq<Frame>>)
    requires DbValid(db) && Acyclic(frame)
    ensures FromFrame(r.value, frame) && r.count >= count
    decreases fuel, goal, 3, 0
  {
    if fuel == 0 then Run([], count)
    else
      var m := RuleStreams(db, 0, goal, frame, fuel - 1, count);
      FlattenFromFrame(m.value, frame);
      Run(FlattenDelayed(m.value), m.count)
  }

  /** With fuel left, applyRules flattens the per-rule streams, one level of rule application deeper. */
  lemma ApplyRulesUnfold(db: Db, goal: Term, frame: Frame, fuel: nat, count: nat, streams: seq<seq<Frame>>, after: nat)
    requires DbValid(db) && Acyclic(frame) && fuel > 0
    requires Run(streams, after) == RuleStreams(db, 0, goal, frame, fuel - 1, count)
    ensures Run(FlattenDelayed(streams), after) == ApplyRules(db, goal, frame, fuel, count)
  {
  }

  /** The per-rule streams of applyRules' flatmap, for the rules from `k` on. */
  function RuleStreams(db: Db, k: nat, goal: Term, frame: Frame, depth: nat, count: nat): (r: Run<seq<seq<Frame>>>)
    requires DbValid(db) && Acyclic(frame) && k <= |db.rules|
    ensures |r.value| == |db.rules| - k && r.count >= count
    ensures forall i :: 0 <= i < |r.value| ==> FromFrame(r.value[i], frame)
    decreases depth + 1, goal, 2, |db.rules| - k
  {
    if k == |db.rules| then Run([], count)
    else
      var here := ApplyRule(db, db.rules[k], goal, frame, depth, count);
      var rest := RuleStreams(db, k + 1, goal, frame, depth, here.count);
      Run([here.value] + rest.value, rest.count)
  }

  /** Rule.applyRule: rename the rule apart, unify its conclusion with the query, then run its body. */
  function ApplyRule(db: Db, rule: Rule, goal: Term, frame: Frame, depth: nat, count: nat): (r: Run<seq<Frame>>)
    requires DbValid(db) && Acyclic(frame)
    ensures FromFrame(r.value, frame) && r.count > count
    decreases depth + 1, goal, 1, 0
  {
    var id := count + 1;
    var clean := RenameRule(rule, id);
    match Unify(goal, clean.conclusion, Some(frame))
    case Some(m) =>
      var body := QEval(db, clean.body, [m], depth, id);
      DescendsSingle(body.value, m, frame);
      body
    case None => Run([], id)
  }

  // ---- Stream-level facts about frame ancestry

  lemma DescendsRefl(fs: seq<Frame>)
    requires AllAcyclic(fs)
    ensures Descends(fs, fs)
  {
    forall j | 0 <= j < |fs| ensures ExtendsSome(fs[j], fs) {
      assert Extends(fs[j], fs[j]);
    }
  }

  lemma DescendsTrans(a: seq<Frame>, b: seq<Frame>, c: seq<Frame>)
    requires Descends(a, b) && Descends(b, c)
    ensures Descends(a, c)
  {
    forall j | 0 <= j < |a| ensures ExtendsSome(a[j], c) {
      var k :| 0 <= k < |b| && Extends(a[j], b[k]);
      var i :| 0 <= i < |c| && Extends(b[k], c[i]);
      ExtendsTransitive(a[j], b[k], c[i]);
    }
  }

  lemma DescendsInterleave(a: seq<Frame>, b: seq<Frame>, c: seq<Frame>)
    requires Descends(a, c) && Descends(b, c)
    ensures Descends(Interleave(a, b), c)
  {
    var r := Interleave(a, b);
    forall j | 0 <= j < |r| ensures Acyclic(r[j]) && ExtendsSome(r[j], c) {
      assert r[j] in multiset(r);
      if r[j] in a {
        var k :| 0 <= k < |a| && a[k] == r[j];
      } else {
        assert r[j] in b;
        var k :| 0 <= k < |b| && b[k] == r[j];
      }
    }
  }

  lemma ConsFromFrames(here: seq<Frame>, rest: seq<seq<Frame>>, frames: seq<Frame>)
    requires frames != [] && |rest| == |frames| - 1 && FromFrame(here, frames[0])
    requires forall i :: 0 <= i < |rest| ==> FromFrame(rest[i], frames[1..][i])
    ensures forall i :: 0 <= i < |frames| ==> FromFrame(([here] + rest)[i], frames[i])
  {
    forall i | 0 < i < |frames| ensures FromFrame(([here] + rest)[i], frames[i]) {
      assert ([here] + rest)[i] == rest[i - 1] && frames[i] == frames[1..][i - 1];
    }
  }

  lemma FromFrameAppend(a: seq<Frame>, b: seq<Frame>, f: Frame)
    requires FromFrame(a, f) && FromFrame(b, f)
    ensures FromFrame(a + b, f)
  {
    forall j | 0 <= j < |a + b| ensures Acyclic((a + b)[j]) && Extends((a + b)[j], f) {
      if j >= |a| {
        assert (a + b)[j] == b[j - |a|];
      }
    }
  }

  lemma DescendsSingle(out: seq<Frame>, m: Frame, f: Frame)
    requires Descends(out, [m]) && Extends(m, f)
    ensures FromFrame(out, f)
  {
    forall j | 0 <= j < |out| ensures Extends(out[j], f) {
      ExtendsTransitive(out[j], m, f);
    }
  }

  lemma FlattenDescends(ss: seq<seq<Frame>>, frames: seq<Frame>)
    requires |ss| == |frames| && forall i :: 0 <= i < |ss| ==> FromFrame(ss[i], frames[i])
    ensures Descends(FlattenDelayed(ss), frames)
  {
    var r := FlattenDelayed(ss);
    forall j | 0 <= j < |r| ensures Acyclic(r[j]) && ExtendsSome(r[j], frames) {
      FlattenMembers(ss, r[j]);
      var i :| 0 <= i < |ss| && r[j] in ss[i];
      var k :| 0 <= k < |ss[i]| && ss[i][k] == r[j];
      assert Extends(r[j], frames[i]);
    }
  }

  lemma FlattenFromFrame(ss: seq<seq<Frame>>, f: Frame)
    requires forall i :: 0 <= i < |ss| ==> FromFrame(ss[i], f)
    ensures FromFrame(FlattenDelayed(ss), f)
  {
    var r := FlattenDelayed(ss);
    forall j | 0 <= j < |r| ensures Acyclic(r[j]) && Extends(r[j], f) {
      FlattenMembers(ss, r[j]);
      var i :| 0 <= i < |ss| && r[j] in ss[i];
      var k :| 0 <= k < |ss[i]| && ss[i][k] == r[j];
    }
  }
}
