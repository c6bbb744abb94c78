/**
 * The database object of logic_programming.js:85-150 and the query procedures
 * of logic_programming.js:307-348 as they run against it: the assertion and
 * rule streams are fields that addAssertion and addRule reassign, and the rule
 * counter Rule.idCount is a field that every rule application increments.
 * Each procedure is proved to compute what the matching function of `Query`
 * specifies, starting from the counter value it finds.
 */
module Engine {
  import opened Wrappers
  import opened Terms
  import opened Frames
  import opened Matching
  import opened Unification
  import opened Renaming
  import opened Streams
  import Query

  class Database {
    var assertions: seq<Term>
    var rules: seq<Rule>
    /** Rule.idCount: the id of the latest renaming of a rule. */
    var idCount: nat

    ghost function Contents(): Query.Db
      reads this`assertions, this`rules
    {
      Query.Db(assertions, rules)
    }

    ghost predicate Valid()
      reads this`assertions, this`rules
    {
      Query.DbValid(Contents())
    }

    constructor ()
      ensures Valid() && assertions == [] && rules == [] && idCount == 0
    {
      assertions := [];
      rules := [];
      idCount := 0;
    }

    /** addAssertion: append one (ground) assertion. */
    method AddAssertion(assertion: Term)
      requires Valid() && Ground(assertion)
      modifies this`assertions
      ensures Valid() && assertions == old(assertions) + [assertion]
    {
      assertions := Append(assertions, Singleton(assertion));
    }

    /** addRule: append one rule. */
    method AddRule(rule: Rule)
      requires Valid()
      modifies this`rules
      ensures Valid() && rules == old(rules) + [rule]
    {
      rules := Append(rules, Singleton(rule));
    }

    /** Rule.renameVariables: bump the counter and rename the rule with its new value. */
    method RenameVariables(rule: Rule) returns (clean: Rule)
      modifies this`idCount
      ensures idCount == old(idCount) + 1
      ensures clean == RenameRule(rule, idCount)
    {
      idCount := idCount + 1;
      clean := RenameRule(rule, idCount);
    }

    method QEval(goal: Term, frames: seq<Frame>, fuel: nat) returns (result: seq<Frame>)
      requires Valid() && Query.AllAcyclic(frames)
      modifies this`idCount
      ensures Query.Run(result, idCount) == Query.QEval(Contents(), goal, frames, fuel, old(idCount))
      decreases fuel, goal, 6, 0
    {
      if Query.IsAnd(goal) {
        result := AndQuery(goal, frames, fuel);
      } else if Query.IsOr(goal) {
        result := OrQuery(goal, frames, fuel);
      } else if Query.IsNot(goal) {
        result := NotQuery(goal, frames, fuel);
      } else {
        result := SimpleQuery(goal, frames, fuel);
      }
    }

    /** andQuery: feed the answers of each conjunct to the next. */
    method AndQuery(goal: Term, frames: seq<Frame>, fuel: nat) returns (result: seq<Frame>)
      requires Valid() && Query.AllAcyclic(frames) && Query.IsAnd(goal)
      modifies this`idCount
      ensures Query.Run(result, idCount) == Query.AndQuery(Contents(), goal, 1, frames, fuel, old(idCount))
      decreases fuel, goal, 5, 0
    {
      result := frames;
      var i := 1;
      while i < |goal.items|
        invariant 1 <= i <= |goal.items|
        invariant Query.AllAcyclic(result)
        invariant Query.AndQuery(Contents(), goal, i, result, fuel, idCount)
                  == Query.AndQuery(Contents(), goal, 1, frames, fuel, old(idCount))
      {
        result := QEval(goal.items[i], result, fuel);
        i := i + 1;
      }
    }

    /** orQuery, each disjunct's answers interleaved after the ones gathered so far. */
    method OrQuery(goal: Term, frames: seq<Frame>, fuel: nat) returns (result: seq<Frame>)
      requires Valid() && Query.AllAcyclic(frames) && Query.IsOr(goal)
      modifies this`idCount
      ensures Query.Run(result, idCount) == Query.OrQuery(Contents(), goal, 1, [], frames, fuel, old(idCount))
      decreases fuel, goal, 5, 0
    {
      result := [];
      var i := 1;
      while i < |goal.items|
        invariant 1 <= i <= |goal.items|
        invariant Query.Descends(result, frames)
        invariant Query.OrQuery(Contents(), goal, i, result, frames, fuel, idCount)
                  == Query.OrQuery(Contents(), goal, 1, [], frames, fuel, old(idCount))
      {
        var disjunct := QEval(goal.items[i], frames, fuel);
        Query.DescendsInterleave(result, disjunct, frames);
        result := InterleaveDelayed(result, () => disjunct);
        i := i + 1;
      }
    }

    /** notQuery: keep the frames for which the negated query has no answer. */
    method NotQuery(goal: Term, frames: seq<Frame>, fuel: nat) returns (result: seq<Frame>)
      requires Valid() && Query.AllAcyclic(frames) && Query.IsNot(goal)
      modifies this`idCount
      ensures Query.Run(result, idCount) == Query.NotQuery(Contents(), goal, frames, fuel, old(idCount))
      decreases fuel, goal, 5, 0
    {
      var streams := NotStreams(goal, frames, fuel);
      result := FlattenDelayed(streams);
    }

    method NotStreams(goal: Term, frames: seq<Frame>, fuel: nat) returns (streams: seq<seq<Frame>>)
      requires Valid() && Query.AllAcyclic(frames) && Query.IsNot(goal)
      modifies this`idCount
      ensures Query.Run(streams, idCount) == Query.NotStreams(Contents(), goal, frames, fuel, old(idCount))
      decreases fuel, goal, 4, |frames|
    {
      if frames == [] {
        return [];
      }
      var sub: seq<Frame> := [];
      if |goal.items| >= 2 {
        sub := QEval(goal.items[1], [frames[0]], fuel);
      }
      var here := if sub == [] then Singleton(frames[0]) else [];
      var rest := NotStreams(goal, frames[1..], fuel);
      streams := [here] + rest;
    }

    /** simpleQuery: for each frame, the matching assertions, then the answers through rules. */
    method SimpleQuery(goal: Term, frames: seq<Frame>, fuel: nat) returns (result: seq<Frame>)
      requires Valid() && Query.AllAcyclic(frames)
      modifies this`idCount
      ensures Query.Run(result, idCount) == Query.SimpleQuery(Contents(), goal, frames, fuel, old(idCount))
      decreases fuel, goal, 5, 0
    {
      var streams := SimpleStreams(goal, frames, fuel);
      result := FlattenDelayed(streams);
    }

    method SimpleStreams(goal: Term, frames: seq<Frame>, fuel: nat) returns (streams: seq<seq<Frame>>)
      requires Valid() && Query.AllAcyclic(frames)
      modifies this`idCount
      ensures Query.Run(streams, idCount) == Query.SimpleStreams(Contents(), goal, frames, fuel, old(idCount))
      decreases fuel, goal, 4, |frames|
    {
      if frames == [] {
        return [];
      }
      var found := FindAssertions(goal, frames[0]);
      var applied := ApplyRules(goal, frames[0], fuel);
      var here := AppendDelayed(found, () => applied);
      var rest := SimpleStreams(goal, frames[1..], fuel);
      streams := [here] + rest;
    }

    /** findAssertions: check the query against every assertion in turn. */
    method FindAssertions(goal: Term, frame: Frame) returns (result: seq<Frame>)
      requires Valid() && Acyclic(frame)
      ensures result == Query.FindAssertions(Contents(), goal, frame)
    {
      var checks := AssertionStreams(0, goal, frame);
      result := FlattenDelayed(checks);
    }

    method AssertionStreams(k: nat, goal: Term, frame: Frame) returns (checks: seq<seq<Frame>>)
      requires Valid() && Acyclic(frame) && k <= |assertions|
      ensures checks == Query.AssertionStreams(Contents(), k, goal, frame)
      decreases |assertions| - k
    {
      if k == |assertions| {
        return [];
      }
      var here := CheckAssertion(goal, assertions[k], frame);
      var rest := AssertionStreams(k + 1, goal, frame);
      checks := [here] + rest;
    }

    /** Assertion.checkAssertion, through the pattern matcher. */
    method CheckAssertion(goal: Term, assertion: Term, frame: Frame) returns (result: seq<Frame>)
      requires Ground(assertion) && Acyclic(frame)
      ensures result == Query.CheckAssertion(goal, assertion, frame)
    {
      var m := PatternMatch(goal, assertion, Some(frame));
      if m.Some? {
        result := Singleton(m.value);
      } else {
        result := [];
      }
    }

    /** applyRules: try every rule in turn, while there is fuel for one more rule application. */
    method ApplyRules(goal: Term, frame: Frame, fuel: nat) returns (result: seq<Frame>)
      requires Valid() && Acyclic(frame)
      modifies this`idCount
      ensures Query.Run(result, idCount) == Query.ApplyRules(Contents(), goal, frame, fuel, old(idCount))
      decreases fuel, goal, 3, 0
    {
      if fuel == 0 {
        return [];
      }
      ghost var count := idCount;
      var streams := RuleStreams(0, goal, frame, fuel - 1);
      Query.ApplyRulesUnfold(Contents(), goal, frame, fuel, count, streams, idCount);
      result := FlattenDelayed(streams);
    }

    method RuleStreams(k: nat, goal: Term, frame: Frame, depth: nat) returns (streams: seq<seq<Frame>>)
      requires Valid() && Acyclic(frame) && k <= |rules|
      modifies this`idCount
      ensures Query.Run(streams, idCount) == Query.RuleStreams(Contents(), k, goal, frame, depth, old(idCount))
      decreases depth + 1, goal, 2, |rules| - k
    {
      if k == |rules| {
        return [];
      }
      var here := ApplyRule(rules[k], goal, frame, depth);
      var rest := RuleStreams(k + 1, goal, frame, depth);
      streams := [here] + rest;
    }

    /** applyRule: rename the rule apart, unify its conclusion with the query, run its body. */
    method ApplyRule(rule: Rule, goal: Term, frame: Frame, depth: nat) returns (result: seq<Frame>)
      requires Valid() && Acyclic(frame)
      modifies this`idCount
      ensures Query.Run(result, idCount) == Query.ApplyRule(Contents(), rule, goal, frame, depth, old(idCount))
      decreases depth + 1, goal, 1, 0
    {
      var clean := RenameVariables(rule);
      var m := UnifyMatch(goal, clean.conclusion, Some(frame));
      if m.Some? {
        result := QEval(clean.body, [m.value], depth);
      } else {
        result := [];
      }
    }
  }
}
