# A verified model of a JavaScript logic-programming engine

This project models, in Dafny, the core of a JavaScript port of the query system of
section 4.4 of *Structure and Interpretation of Computer Programs*. The engine stores
assertions (ground facts) and rules in a database. It answers a query such as
`(and (job ?x ?y) (not (boss ?x)))` by turning a stream of frames into a stream of
answer frames. A frame is a chain of variable bindings.

The model follows the repository's two files:

- `logic_programming.js` holds the engine:
  - terms and frames;
  - one-way pattern matching and two-way unification with an occurs check;
  - instantiation;
  - renaming of rule variables through a global counter;
  - the database;
  - query evaluation through `and`, `or`, `not` and simple queries;
  - a recursive-descent parser;
  - two serialisers;
  - the variable-extraction utility.
- `streams.js` is a lazy, memoising cons-stream library.

Modules and files:

| file | module | what it holds |
|---|---|---|
| `wrappers.dfy` | `Wrappers` | `Option` |
| `terms.dfy` | `Terms` | `Term = Atom | Var | List`. A variable keeps its name without the `?` sigil. |
| `frames.dfy` | `Frames` | `Frame = Empty | Bind(name, value, parent)`, `Lookup`, and the `Extends` order. It also holds the acyclicity and depth machinery that makes reading a frame terminate. |
| `resolve.dfy` | `Resolve` | `instantiate` and `dependsOn` |
| `matching.dfy` | `Matching` | `patternMatch` and `extendIfConsistent` as specification functions, plus methods that follow the source's loop |
| `unification.dfy` | `Unification` | `unifyMatch` and `extendIfPossible`, in the same two forms |
| `renaming.dfy` | `Renaming` | rules, `renameVariables`, and the decimal text of the rule counter |
| `streams.dfy` | `Streams` | each stream combinator as a function on the finite sequence a stream delivers |
| `lazy_streams.dfy` | `LazyStreams` | the stream node as a class with a memoised tail (`streamCdr`), plus `forEach` and `reduce`. The nodes forced from one stream form a chain, listed in order by a ghost record that the whole chain shares. |
| `query.dfy` | `Query` | query evaluation as functions. The rule counter is threaded through, and rule application is bounded by fuel. |
| `query_props.dfy` | `QueryProperties` | what the answers of each kind of query are, and the `or` finding |
| `engine.dfy` | `Engine` | the database as a class whose fields the methods reassign: assertions, rules and the rule counter `idCount`. Each query procedure is a method proved equal to `Query`. |
| `parser.dfy` | `Parsing` | the parser: specification functions, and the source's loops as methods proved equal to them |
| `printing.dfy` | `Printing` | `serializeTerm` and `serializeTree`, and the round trip from printing to parsing |
| `utilities.dfy` | `Utilities` | the string order, an in-place sort, `uniqueValues` and `extractVariables` |

The `is*` predicates are in the modules that use them:

- `isVariable` is `Terms.IsVariableText` and `Terms.FromText`.
- `isAnd`, `isOr` and `isNot` are `Query.IsAnd`, `Query.IsOr` and `Query.IsNot`.
- `isArray` and `isString` are the tags of `Term`.

JavaScript's `false` frame and `-1` parse position become `None`.

## Model

| member | source | states |
|---|---|---|
| Terms.FromText | logic_programming.js:505-508 | A source string stands for a variable exactly when it starts with `?`, and the variable's name is the rest. Any other string is the atom with that text. |
| Frames.Lookup | logic_programming.js:48-52 | A lookup finds a value exactly when the name is bound in the frame. The value found mentions only variables that occur in the frame. |
| Frames.ExtendsLookup | logic_programming.js:48-52 | In a frame grown from `f` by binding fresh names, every name bound in `f` still looks up to the same value. |
| Frames.ExtendsNames | logic_programming.js:41-45 | Growing a frame keeps its names and its variables. A grown frame with no new name is the frame itself. |
| Frames.ExtendsTransitive | logic_programming.js:41-45 | Growing a frame twice is growing it. |
| Resolve.Instantiate | logic_programming.js:289-301 | The instantiated term mentions no variable bound in the frame. It mentions only variables of the term or of the frame. |
| Resolve.DependsOn | logic_programming.js:236-252 | For an unbound variable `v`, `dependsOn` is true exactly when `v` occurs in the instantiated term. |
| Resolve.InstantiateFree | logic_programming.js:292-296 | A term none of whose variables is bound is returned unchanged. This covers unbound variables, which are left as they are. |
| Resolve.InstantiateGround | logic_programming.js:289-301 | A variable-free term is returned unchanged. |
| Resolve.InstantiateIdempotent | logic_programming.js:289-301 | Instantiating an instantiated term changes nothing. |
| Resolve.InstantiateCompose | logic_programming.js:289-301 | Instantiating in `f` and then in a frame grown from `f` is the same as instantiating in the grown frame. |
| Resolve.GroundIndependent | logic_programming.js:236-252 | A ground term depends on no unbound variable. |
| Resolve.ExtendAcyclic | logic_programming.js:254-266 | Binding an unbound variable to a term that does not depend on it keeps the frame acyclic, so instantiation still terminates. |
| Matching.Match | logic_programming.js:218-234 | A successful match returns an acyclic frame grown from the input frame. |
| Matching.MatchItems | logic_programming.js:226-231 | The item loop returns an acyclic frame grown from the input frame. |
| Matching.ExtendMatch | logic_programming.js:212-216 | `extendIfConsistent` returns an acyclic frame grown from its input. |
| Matching.PatternMatch | logic_programming.js:218-234 | The method, with the source's loop threading `frame`, computes `Match`. |
| Matching.ExtendIfConsistent | logic_programming.js:212-216 | The method computes `ExtendMatch`. |
| Matching.MatchFailures | logic_programming.js:221-233 | Matching fails in each of these cases: with a `false` frame; for an atom against a different term; for an array against a non-array; for arrays of different lengths. |
| Matching.MatchItemsAbsent | logic_programming.js:228-231 | The item loop started on a `false` frame stays `false`. |
| Matching.MatchSound | logic_programming.js:218-234 | When the match succeeds, the pattern instantiated in the resulting frame equals the data. |
| Matching.ExtendMatchSound | logic_programming.js:212-216 | After `extendIfConsistent` succeeds, the variable instantiates to the data. |
| Matching.MatchItemsSound | logic_programming.js:226-231 | After the item loop succeeds, every pattern item instantiates to the corresponding data item. |
| Matching.MatchKeepsBindings | logic_programming.js:218-234 | Every name bound in the input frame looks up to the same value in the frame a successful match returns. |
| Matching.MatchSelf | logic_programming.js:222 | Data matched against itself leaves the frame unchanged. Arrays compare item by item, so the source's identity shortcut changes nothing. |
| Matching.MatchItemsSelf | logic_programming.js:226-231 | Items matched against themselves leave the frame unchanged. |
| Matching.ExtendsSolves | logic_programming.js:218-234 | A frame grown from `f` satisfies every binding of `f`. |
| Matching.MatchComplete | logic_programming.js:191-199 | If some acyclic frame satisfying the bindings of the input frame instantiates the pattern to the data, the match succeeds, and that frame also satisfies the bindings of the result. So `false` comes back only when equating is impossible. |
| Matching.MatchItemsComplete | logic_programming.js:226-231 | The same for the item loop: items that some such frame equates all match. |
| Matching.MatchIff | logic_programming.js:191-199 | The match succeeds exactly when some acyclic frame grown from the input frame instantiates the pattern to the data. |
| Unification.Unify | logic_programming.js:268-287 | A successful unification returns an acyclic frame grown from the input. It binds only variables of the two sides or of the frame. |
| Unification.UnifyItems | logic_programming.js:279-285 | The same for the item loop. |
| Unification.ExtendUnify | logic_programming.js:254-266 | `extendIfPossible` returns an acyclic frame grown from the input. It binds only the variable, variables of the value, or variables of the frame. |
| Unification.UnifyMatch | logic_programming.js:268-287 | The method computes `Unify`. |
| Unification.UnifyListMatch | logic_programming.js:279-285 | The source's loop over the items of two arrays of the same length, threading `frame`, computes `Unify`. |
| Unification.ExtendIfPossible | logic_programming.js:254-266 | The method computes `ExtendUnify`. |
| Unification.UnifySound | logic_programming.js:268-287 | When unification succeeds, both sides instantiate to the same term in the resulting frame. |
| Unification.ExtendUnifySound | logic_programming.js:254-266 | When `extendIfPossible` succeeds, the variable and the value instantiate to the same term. |
| Unification.UnifyItemsSound | logic_programming.js:279-285 | After the item loop succeeds, corresponding items instantiate to the same term. |
| Unification.UnifyItemsAbsent | logic_programming.js:271 | The item loop started on a `false` frame stays `false`. |
| Unification.UnifyFailures | logic_programming.js:271-286 | Unification fails in each of these cases: with a `false` frame; for two different atoms; for an array against an atom, either way round; for arrays of different lengths. |
| Unification.UnifyKeepsBindings | logic_programming.js:268-287 | The bindings of the input frame are preserved. |
| Unification.UnifySelf | logic_programming.js:272 | A term unified with itself leaves the frame unchanged. |
| Unification.UnifyItemsSelf | logic_programming.js:279-285 | Items unified with themselves leave the frame unchanged. |
| Unification.OccursCheck | logic_programming.js:264 | An unbound variable never unifies, on either side, with a non-variable term that depends on it. |
| Unification.UnifyGroundIsMatch | logic_programming.js:268-287 | Against ground data, unification computes exactly what pattern matching computes. |
| Unification.UnifyItemsGroundIsMatch | logic_programming.js:279-285 | The same for the item loops. |
| Renaming.NatToString | logic_programming.js:166 | The counter's decimal text is a non-empty run of digits. |
| Renaming.NatToStringRoundTrip | logic_programming.js:166 | Reading the decimal text back gives the number. |
| Renaming.NatToStringInjective | logic_programming.js:166 | Different ids have different texts. |
| Renaming.RenameVariables | logic_programming.js:165-171 | Renaming keeps the tree's shape and its atoms. It maps each variable `v` to the variable `v-id`. |
| Renaming.RenameRule | logic_programming.js:93-98 | A rule's conclusion and body are both renamed with the same id. |
| Renaming.RenamedVars | logic_programming.js:165-171 | The variables of the renamed term are exactly `v-id` for the variables `v` of the term. |
| Renaming.TrailingDigitsOfName | logic_programming.js:166 | After `-` and a run of digits, the name ends in exactly that many digits. |
| Renaming.SuffixDetermines | logic_programming.js:166 | `a-x` equals `b-y` for digit runs `x` and `y` only when `a` is `b` and `x` is `y`. |
| Renaming.RenameInjective | logic_programming.js:165-171 | Renaming with one id is injective. |
| Renaming.RenamedApartByIds | logic_programming.js:93-98 | Copies renamed with different ids share no variable. `Rule.renameVariables` always uses a fresh id, so two copies never clash. |
| Renaming.RenamedApartFromPlain | logic_programming.js:165-171 | A renamed copy shares no variable with a term whose variable names have no `-`, such as every term the parser reads. |
| Streams.Singleton | streams.js:182-185 | A singleton stream has exactly one element, the value. |
| Streams.Map | streams.js:63-69 | `map` keeps the length and applies the function to each element, in order. |
| Streams.MapCompose | streams.js:63-69 | Mapping twice is mapping the composition. |
| Streams.Filter | streams.js:71-80 | `filter` keeps exactly the elements satisfying the predicate and no more elements than there were. |
| Streams.FilterAppend | streams.js:71-80 | Filtering works element by element, in order: filtering a concatenation concatenates the filtered parts. |
| Streams.Take | streams.js:130-138 | `take(n)` for `0 <= n <= length` is the first `n` elements, so `take(0)` is empty. A larger `n` keeps everything. So does a negative one, which never meets the stopping tests. |
| Streams.TakePrefix | streams.js:130-138 | Taking more keeps what was taken before. |
| Streams.Append | streams.js:140-146 | `append` is this stream's elements followed by the other's. |
| Streams.AppendDelayed | streams.js:148-154 | `appendDelayed` is the same as `append` of the delayed stream. |
| Streams.Interleave | streams.js:92-98 | `interleave` has all the elements of both streams, as often as they occur (a permutation of the concatenation). |
| Streams.InterleaveAlternates | streams.js:92-98 | The elements of the two streams alternate, starting with the left one, until the shorter runs out. Then the rest of the longer follows in order. |
| Streams.InterleaveEven | streams.js:92-98 | Position `2i` holds element `i` of the left stream, while the right one has at least `i` elements. |
| Streams.InterleaveOdd | streams.js:92-98 | Position `2i + 1` holds element `i` of the right stream, while the left one has more than `i`. |
| Streams.InterleaveRest | streams.js:92-98 | Past twice the shorter length, the interleaving continues with the rest of the longer stream. |
| Streams.InterleaveDelayed | streams.js:156-166 | `interleaveDelayed` is the same as `interleave` with the forced stream. |
| Streams.FlattenDelayed | streams.js:168-173 | `flattenDelayed` holds exactly the multiset union of the inner streams. |
| Streams.FlattenMembers | streams.js:168-173 | An element is in the flattened stream exactly when it is in one of the inner streams. |
| Streams.FlatmapDelayed | streams.js:175-177 | `flatmapDelayed` holds exactly the multiset union of the mapped streams. |
| Streams.FlatmapMembers | streams.js:175-177 | An element comes out exactly when the function yields it for some element. |
| Streams.Merge | streams.js:100-124 | The merge holds exactly the elements of both streams. |
| Streams.MergeIncreasing | streams.js:100-124 | Merging two strictly increasing streams gives a strictly increasing stream, so equal heads are emitted once. |
| Streams.Range | streams.js:187-190 | `range(a, b)` is `a, a+1, …, b`, and is empty when `a > b`. |
| Streams.FoldLeftAppend | streams.js:82-90 | Folding a concatenation folds the second part from the result of the first. |
| LazyStreams.Stream.constructor | streams.js:31-35 | A new node delivers the given elements and has not yet forced its tail. |
| LazyStreams.Stream.IsEmpty | streams.js:51-53 | A node is empty exactly when it delivers no elements. |
| LazyStreams.Stream.StreamCar | streams.js:40-42 | The head is the first element delivered. |
| LazyStreams.Stream.Tail | streams.js:46 | The node a forced tail builds delivers the remaining elements, has its own tail unforced, and joins the chain of the node forced. |
| LazyStreams.Stream.StreamCdr | streams.js:44-49 | The tail delivers the remaining elements, and the node and its tail stay valid. Once the tail has been computed, later calls return the same cached node and leave the chain as it is. The first call builds one fresh node and appends it to the chain. |
| LazyStreams.Stream.Force | streams.js:46-47 | Caching a fresh tail on the last node of a chain appends it to the chain, and every node of the chain stays valid. |
| LazyStreams.Chain.Link | streams.js:44-49 | In a chain, each node but the last has cached the next node as its tail, and that tail delivers the node's delayed elements. |
| LazyStreams.Stream.ForEach | streams.js:55-61 | The callback is given every element, in order. Afterwards the stream is still valid and delivers the same elements. Its chain has only grown, by fresh nodes, so it can be walked again. |
| LazyStreams.Stream.Reduce | streams.js:82-90 | `reduce` is the left fold of the elements from the initial value. Afterwards the stream is still valid, as for `forEach`. |
| LazyStreams.ForEachTwice | streams.js:44-61 | Walking a stream twice gives the same elements both times, because the memoised tails replay them. |
| Query.QEval | logic_programming.js:307-312 | Dispatches to `and`, then `or`, then `not`, else a simple query. Every answer is an acyclic extension of some input frame, and the rule counter never goes down. |
| Query.AndQuery | logic_programming.js:322-329 | Each answer extends some input frame. |
| Query.OrQuery | logic_programming.js:331-339 | Each answer of the loop, with each disjunct evaluated as its own sub-query, extends some input frame. |
| Query.OrQueryAsWritten | logic_programming.js:331-339 | The loop as it behaves: every delayed thunk evaluates the item past the end of the query. Its answers still extend input frames. |
| Query.NotQuery | logic_programming.js:341-348 | Each answer is an input frame. |
| Query.NotFilter | logic_programming.js:343-345 | The negated sub-query is run on one frame, and the counter never goes down. A `not` with no operand is treated as a sub-query with no answers (see "## Left out"). |
| Query.NotStreams | logic_programming.js:341-348 | For each input frame, the stream holds either nothing or exactly that frame. |
| Query.SimpleQuery | logic_programming.js:314-320 | Each answer extends some input frame. |
| Query.SimpleStreams | logic_programming.js:314-320 | One stream per input frame, each made of extensions of that frame. |
| Query.CheckAssertion | logic_programming.js:74-78 | The result is empty or a single extension of the frame. |
| Query.FindAssertions | logic_programming.js:141-144 | Every result extends the frame. |
| Query.AssertionStreams | logic_programming.js:141-144 | One stream per assertion: `checkAssertion` of that assertion. |
| Query.ApplyRules | logic_programming.js:146-150 | Every result extends the frame, and the counter never goes down. |
| Query.RuleStreams | logic_programming.js:146-150 | One stream per rule, each made of extensions of the frame. |
| Query.ApplyRule | logic_programming.js:100-106 | Every result extends the frame, and the counter strictly increases. |
| QueryProperties.CheckAssertionMembers | logic_programming.js:74-78 | `m` is delivered exactly when matching the query against the assertion gives `m`. |
| QueryProperties.FindAssertionsMembers | logic_programming.js:141-144 | `m` is delivered exactly when some assertion matches the query to `m`. |
| QueryProperties.AssertionOrigin | logic_programming.js:141-144 | For every delivered frame there is an assertion index `i` such that the query instantiated in that frame is assertion `i`. |
| QueryProperties.FindAssertionsSound | logic_programming.js:141-144 | Every delivered frame is acyclic and is explained by some assertion of the database: the instantiated query is that assertion. |
| QueryProperties.ApplyRuleSound | logic_programming.js:100-106 | For every answer of a rule application, the instantiated query equals the rule's conclusion renamed with the next counter value and instantiated in that answer. |
| QueryProperties.RuleStreamsShape | logic_programming.js:146-150 | The stream of rule `i` is the application of that rule at the counter value the earlier rules leave. |
| QueryProperties.SimpleStreamsUnfold | logic_programming.js:314-320 | The first frame's stream is its assertion answers followed by its rule answers. The rest start from the counter that leaves. |
| QueryProperties.ApplyRulesMember | logic_programming.js:146-150 | `applyRules` has answers only with fuel. Every answer comes from the stream of one rule, one level of fuel down. |
| QueryProperties.RuleStreamMember | logic_programming.js:146-150 | An answer in rule `j`'s stream is an answer of applying rule `j` at its counter. |
| QueryProperties.RuleStreamOrigin | logic_programming.js:100-106 | An answer in rule `j`'s stream instantiates the query to rule `j`'s conclusion, renamed with some id and instantiated in that answer. |
| QueryProperties.RuleOrigin | logic_programming.js:146-150 | For every answer of `applyRules` there are a rule `k` and an id such that the instantiated query is rule `k`'s renamed conclusion instantiated in that answer. |
| QueryProperties.ApplyRulesSound | logic_programming.js:146-150 | Every answer of `applyRules` is acyclic and is explained by some rule: the instantiated query is that rule's conclusion, renamed with some id and instantiated in the answer. |
| QueryProperties.SimpleStreamsFirst | logic_programming.js:315-319 | Every answer in the first frame's stream is explained by an assertion or by a rule. |
| QueryProperties.SimpleStreamsLaterSound | logic_programming.js:315-319 | The same for the stream of a later frame, which is a stream of the rest of the frames. |
| QueryProperties.SimpleStreamsSound | logic_programming.js:315-319 | Every answer in the stream of any frame `i` is acyclic and is explained by an assertion or by a rule. |
| QueryProperties.SimpleQuerySound | logic_programming.js:314-320 | Every answer of a simple query is acyclic and is explained by an assertion or by a renamed rule conclusion: the instantiated query is one of these. |
| QueryProperties.AndWithoutConjuncts | logic_programming.js:322-329 | `and` with no conjuncts returns the input frames and leaves the counter unchanged. |
| QueryProperties.OrWithoutDisjuncts | logic_programming.js:331-339 | `or` with no disjuncts has no answers. |
| QueryProperties.AndSnoc | logic_programming.js:325-327 | Conjuncts fold from left to right: an extra last conjunct runs on the answers of the earlier ones. |
| QueryProperties.AndStep | logic_programming.js:325-327 | Each pass of the loop runs conjunct `i` on the current stream. |
| QueryProperties.AndEnd | logic_programming.js:328 | After the last conjunct, the current stream is the result. |
| QueryProperties.AndSnocStep | logic_programming.js:325-327 | The left-to-right fold carries over one pass of the loop. |
| QueryProperties.AndSnocLast | logic_programming.js:325-327 | The extra last conjunct runs on the answers of all the others. |
| QueryProperties.NoFramesNoAnswers | logic_programming.js:307-312 | With no input frames, every query has no answers. |
| QueryProperties.AndNoFrames | logic_programming.js:322-329 | The same for a conjunction. |
| QueryProperties.OrNoFrames | logic_programming.js:331-339 | The same for a disjunction. |
| QueryProperties.OrQueryUnfold | logic_programming.js:334-337 | One pass of the loop interleaves the answers so far with those of disjunct `i`. |
| QueryProperties.OrCollects | logic_programming.js:331-339 | The answers of `or` are exactly those of its disjuncts, each evaluated on the input frames, with multiplicity. |
| QueryProperties.OrAsWrittenFirstNonEmpty | logic_programming.js:331-339 | As written, the answers of `or` are those of the first disjunct that has any. Later disjuncts contribute nothing. |
| QueryProperties.OrAsWrittenKeeps | logic_programming.js:334-337 | As written, once the loop holds an answer, the later disjuncts add nothing. |
| QueryProperties.OrAsWrittenFromEmpty | logic_programming.js:334-337 | As written, from no answers the loop ends with the answers of the first disjunct that has any. |
| QueryProperties.NotStreamsExact | logic_programming.js:341-348 | For each frame, the stream holds that frame exactly when the negated query has no answer for it, and nothing otherwise. |
| QueryProperties.NotQueryExact | logic_programming.js:341-348 | A frame is an answer of `not` exactly when it is an input frame for which the negated query has no answer. |
| QueryProperties.FactQuery | logic_programming.js:314-320 | On the database of facts `p` and `q` with no rules and fuel 0, querying `p` or `q` gives exactly one answer, the input frame, and leaves the counter unchanged. |
| QueryProperties.OrFactStep | logic_programming.js:334-337 | One pass of the corrected loop over `(or p q)` on two facts. |
| QueryProperties.OrRest | logic_programming.js:334-337 | The remaining passes of that loop each add the input frame. |
| QueryProperties.OrAnswersEachDisjunct | logic_programming.js:331-339 | With evaluation per disjunct, `(or p q)` with facts `p` and `q` answers twice, once per disjunct. |
| QueryProperties.OrAsWrittenLosesAnswers | logic_programming.js:331-339 | As written, the same query answers once: the answer of `q` is lost. |
| Engine.Database.constructor | logic_programming.js:114-117 | A new database has no assertions, no rules, and the counter at 0. |
| Engine.Database.AddAssertion | logic_programming.js:120-124 | Appends the assertion and keeps the assertions ground. |
| Engine.Database.AddRule | logic_programming.js:126-129 | Appends the rule. |
| Engine.Database.RenameVariables | logic_programming.js:93-98 | Increments the counter and renames the rule with the new value. |
| Engine.Database.QEval | logic_programming.js:307-312 | Computes `Query.QEval` from the counter it finds and leaves the counter where that leaves it. |
| Engine.Database.AndQuery | logic_programming.js:322-329 | The loop that reassigns `result` computes `Query.AndQuery`. |
| Engine.Database.OrQuery | logic_programming.js:331-339 | The loop computes `Query.OrQuery`. |
| Engine.Database.NotQuery | logic_programming.js:341-348 | Computes `Query.NotQuery`. |
| Engine.Database.NotStreams | logic_programming.js:342-346 | Computes `Query.NotStreams`, including its treatment of a `not` with no operand. |
| Engine.Database.SimpleQuery | logic_programming.js:314-320 | Computes `Query.SimpleQuery`. |
| Engine.Database.SimpleStreams | logic_programming.js:315-319 | Computes `Query.SimpleStreams`. |
| Engine.Database.FindAssertions | logic_programming.js:141-144 | Computes `Query.FindAssertions`. |
| Engine.Database.AssertionStreams | logic_programming.js:141-144 | Computes `Query.AssertionStreams`. |
| Engine.Database.CheckAssertion | logic_programming.js:74-78 | Computes `Query.CheckAssertion`. |
| Engine.Database.ApplyRules | logic_programming.js:146-150 | Computes `Query.ApplyRules`. |
| Engine.Database.RuleStreams | logic_programming.js:146-150 | Computes `Query.RuleStreams`. |
| Engine.Database.ApplyRule | logic_programming.js:100-106 | Computes `Query.ApplyRule`. |
| Parsing.Sanitise | logic_programming.js:387 | Every character kept is one of `[a-zA-Z_(,)]`, and the text gets no longer. |
| Parsing.SanitiseCounts | logic_programming.js:387 | Each character of `[a-zA-Z_(,)]` is kept as often as it occurs, and every other character is dropped. |
| Parsing.SanitiseClean | logic_programming.js:387 | A text of kept characters passes unchanged. |
| Parsing.SanitiseAppend | logic_programming.js:387 | Sanitising works character by character. |
| Parsing.WordEnd | logic_programming.js:444-461 | The run of letters and underscores starting at `pos` ends at a non-word character or the end. |
| Parsing.WordEndAt | logic_programming.js:444-461 | A word followed by a non-word character is exactly that run. |
| Parsing.ParseAtomSpec | logic_programming.js:442-464 | An atom is read exactly when the character at `pos` is lower-case. It is the maximal word there, and the position advances past it. |
| Parsing.ParseVariableSpec | logic_programming.js:466-488 | A variable is read exactly when the character at `pos` is upper-case. It is the maximal word there, and the position advances past it. |
| Parsing.ParseTermSpec | logic_programming.js:398-411 | A successful parse advances the position and yields a well-formed term. |
| Parsing.ParseCompoundSpec | logic_programming.js:413-440 | A successful parse advances the position and yields a well-formed compound. |
| Parsing.ParseArgsSpec | logic_programming.js:422-437 | A successful parse yields the functor, then the arguments read before, then at least one more. |
| Parsing.ParseAllSpec | logic_programming.js:388-395 | A successful parse yields well-formed terms, at least one for a non-empty rest. |
| Parsing.ParseTermsSpec | logic_programming.js:384-396 | A successful parse yields well-formed terms. |
| Parsing.ParseAtom | logic_programming.js:442-464 | The method, with the source's character loop, computes `ParseAtomSpec`. |
| Parsing.ParseVariable | logic_programming.js:466-488 | The method computes `ParseVariableSpec`. |
| Parsing.ParseTerm | logic_programming.js:398-411 | The method computes `ParseTermSpec`: compound first, then atom, then variable. |
| Parsing.ParseCompoundTerm | logic_programming.js:413-440 | The method, with the source's argument loop, computes `ParseCompoundSpec`. |
| Parsing.ParseTerms | logic_programming.js:384-396 | The method, with the source's loop over terms, computes `ParseTermsSpec`. Any failed term fails the whole parse. |
| Printing.SerializeTerm | logic_programming.js:361-374 | The method, with the source's argument loop, computes `TermText`. |
| Printing.TreeText | logic_programming.js:354-359 | A term that is not a compound prints as its JavaScript string conversion: the atom, or the variable with `?`. A compound prints between `[` and `]`. |
| Printing.TreeItemsJoin | logic_programming.js:354-359 | The items of a compound are their tree texts joined by `, `. |
| Printing.SerializeTreeOfList | logic_programming.js:354-359 | A compound prints as `[`, the item texts joined by `, `, then `]`. |
| Printing.SanitiseText | logic_programming.js:361-374 | For a parseable term, the parser's sanitising step drops only the `?` sigils from the printed term. |
| Printing.SanitiseArgs | logic_programming.js:364-369 | The same for the printed argument list. |
| Printing.ParsePlainAt | logic_programming.js:398-440 | Where the sanitised text of a term stands, followed by the end, `,` or `)`, the parser reads exactly that term and stops just after it. |
| Printing.ParseArgsAt | logic_programming.js:422-437 | The argument loop reads the remaining arguments of the term back and stops after `)`. |
| Printing.SerializeTermRoundTrip | logic_programming.js:361-374 | Parsing the printed text of any term the parser can produce gives back exactly that term. |
| Utilities.BelowRefl | logic_programming.js:537 | The sort order is reflexive. |
| Utilities.BelowAntisym | logic_programming.js:537 | The sort order is antisymmetric. |
| Utilities.BelowTrans | logic_programming.js:537 | The sort order is transitive. |
| Utilities.BelowTotal | logic_programming.js:537 | The sort order is total. |
| Utilities.InsertAt | logic_programming.js:537 | One pass of the sort: it keeps the multiset of strings, and afterwards the first `i + 1` strings are in order. |
| Utilities.SortStrings | logic_programming.js:537 | `arr.sort()` leaves the array sorted and a permutation of what it held. |
| Utilities.KeptUnique | logic_programming.js:538-542 | On a sorted sequence the kept strings are strictly increasing and hold each string of the sequence exactly once. |
| Utilities.UniqueValues | logic_programming.js:534-545 | The array ends sorted and is a permutation of its old contents. The result is strictly increasing and holds exactly the strings of the array. |
| Utilities.ExtractVariables | logic_programming.js:547-563 | The result is strictly increasing and holds exactly the variables of the term, written with `?`. |
| Utilities.StrictlySortedUnique | logic_programming.js:547-563 | Two strictly sorted sequences with the same strings are equal, so that contract fixes the result. |

## Left out

- I/O and the front ends are not part of this model:
  - the jrunscript REPL of `interpreter.js`;
  - the demo driver `example.js`;
  - the result strings of `lP.solve`;
  - the `toString` methods.
- The 4! query of the demo driver is not carried out as a concrete vector. It needs arithmetic rules evaluated to a depth beyond what is practical to unfold.
- `scale` (streams.js:126-128) multiplies JavaScript numbers. Floating point is outside the model.
- Stream denotation:
  - Laziness and infinite streams are left out. Each combinator is a function on the finite sequence a stream delivers.
  - A delayed argument is a thunk whose result is fixed. The model does not capture when a thunk is forced, or whether it is forced more than once.
  - Only `LazyStreams.Stream` models a node object with a memoised tail; query evaluation works on sequences.
  - `LazyStreams.Stream`: a forced tail is always a fresh node that delivers the delayed elements. A thunk that returns an existing stream, so that two streams share nodes, is not modelled.
- Query.QEval: rule application is bounded by `fuel`, the depth of nested rule applications. With fuel 0 a simple query sees only assertions. The model does not say that a recursive query with enough fuel finds every answer the source would eventually produce, or that the source diverges where it does.
- Rule counter:
  - It is per database (a field of `Engine.Database`, a parameter of `Query`) rather than one global shared by all databases.
  - The counter values consumed follow the model's evaluation, which forces each delayed stream in full when it is built. The source forces a delayed stream only when it is read, so it can skip rule applications that the model performs. For example, `notQuery` only asks whether the negated query has a first answer (logic_programming.js:341-348), and `appendDelayed` forces the rule stream only after the assertion stream is used up (streams.js:148-154). So for `(not p)` with a matching assertion `p`, the source renames no rule, while the model renames every rule and advances the counter once per rule. The source can therefore consume fewer ids, in another order, and later renamed variables get other suffixes. Only these suffixes differ, and `Renaming.RenamedApartByIds` holds either way.
- Query.QEval: `or` goes to the corrected loop `Query.OrQuery`, which evaluates each disjunct as in the intended half of the Findings row. `Engine.Database.QEval` and `Engine.Database.OrQuery` do the same. So `(or p q)` on facts `p` and `q` gives two answers here (`QueryProperties.OrAnswersEachDisjunct`), where the source as written gives one (`QueryProperties.OrAsWrittenLosesAnswers`). The as-written loop, `Query.OrQueryAsWritten`, cannot be reached from `QEval`; it is only there to exhibit the finding.
- Query.OrQueryAsWritten: a delayed disjunct is modelled as having no answers and leaving the counter unchanged. In the source it is `qeval` of `undefined`. That call finds no assertion, but it still renames every rule and increments the counter, and a rule whose conclusion is a bare variable would unify with `undefined`. The model leaves out the counter increments and such rules.
- Query.NotFilter: a `not` with no operand (also in `Engine.Database.NotStreams`) is modelled as a sub-query with no answers that leaves the counter unchanged, so the frame is always kept. The source evaluates `qeval` of `undefined` there. That call renames every rule and increments the counter, and a rule whose conclusion is a bare variable unifies with `undefined`, so the source can reject the frame. The parser never builds such a `not`.
- Engine.Database.NotStreams: the same gap as `Query.NotFilter`, since it computes `Query.NotStreams`: with no operand it runs no sub-query and keeps the frame.
- Query.DbValid: assertions must be ground, as the source's comments on pattern matching require. `Engine.Database.AddAssertion` therefore requires a ground assertion.
- Unification.ExtendUnify: requires that the value is not the variable itself. Its only caller, `unifyMatch`, has already returned on `pattern1 === pattern2` in that case.
- Matching.Match: JavaScript's `pattern === data` on two arrays holds only for the same array object. The model always compares arrays item by item. `Matching.MatchSelf` and `Unification.UnifySelf` show that the shortcut makes no difference to the result.
- Frames.Lookup: JavaScript truthiness is replaced by `Option`. In the source a binding to a falsy value, such as the empty-string atom, reads as unbound. The model treats it as bound.
- Unification.Unify: completeness is not proved, i.e. that it succeeds whenever a unifier exists. Only soundness, preservation of bindings and the occurs check are proved.
- Terms: a variable keeps its name without `?`. The `?` is added back where the source's strings are visible:
  - `Printing` text;
  - `Utilities.VarTexts`.
- Utilities.Below: compares Dafny characters (Unicode scalar values). JavaScript's default sort compares UTF-16 code units. The two orders differ only on text outside the Basic Multilingual Plane, which the parser never produces.
- Utilities.SortStrings: is an insertion sort. The source leaves the algorithm to the JavaScript engine, and only the sorted permutation is specified.
- The double definition of `EMPTY_STREAM` (streams.js:37, 180) is left out: an empty stream is one explicit state.
- The global `current` that `forEach` leaks (streams.js:56) is left out.

## Findings

| source | as written | input that shows it | evidently intended | confidence | as-written member | corrected member |
|---|---|---|---|---|---|---|
| logic_programming.js:331-339 | Every thunk built in the `orQuery` loop reads the function-scoped `var i`. So a thunk that is forced after the loop evaluates `pattern[pattern.length]`, which is `undefined`. A thunk is forced after the loop once `result` is non-empty. Hence only the first disjunct with answers contributes. | Facts `p` and `q`, the query `(or p q)`, and one input frame. The answer from `q` is lost, so there is one answer instead of two. | The answers of every disjunct, interleaved. Each thunk should evaluate its own disjunct, as `let` or a closure per iteration would give. | not executed | QueryProperties.OrAsWrittenLosesAnswers | QueryProperties.OrCollects |
