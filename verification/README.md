# M3 in Dafny

M3 is an enumerative counterexample-guided synthesiser of small integer
programs over `x` and `y`. A `Grammar` holds term templates (`"0"`, `"x"`,
`"T + T"`) and condition templates (`"T <= T"`, `"C and C"`, `"not C"`); a
`Specification` holds a condition on an output and the inputs. `M3.synthesize`
repeats one loop:

- the term solver enumerates terms until their covers span every known point;
- the unifier adds terms and predicates until it can learn a decision tree;
- the verifier samples random test points from a widening range and returns
  the first point where the tree's program breaks the specification.

That point joins the known points and the loop starts again. The repository
also holds two single-file drafts of the same idea over `(x, y, expected)`
examples, `works.py` and `syn.py`.

This project models them as follows.

- **Grammar operations** are functions on strings: identifiers, non-recursive
  terms, template filling, predicate enumeration with its pruning, and the
  sort key. Predicate enumeration is also an imperative method, proved equal
  to its function.
- **The term generator** is a class with a cursor (`TermEnumeration`).
- **The decision tree** is a datatype with an optional depth per node
  (`DecisionTrees`).
- **The M3 session** is a class whose fields are the synthesiser's
  attributes (`M3.Synthesizer`).
- **The verifier's point generator** is a class whose range schedule is
  proved against a closed form (`TestPoints`).
- **`works.py`** is a class (`Works.Synthesis`) and **`syn.py`** is a set of
  functions and methods (`Syn`).

Evaluating a term or predicate with `exec`/`eval` becomes a function
parameter. A raised exception becomes a `Failure`. Python set iteration order
is left open: each loop over a set picks its next element arbitrarily, and
every contract holds for every order.

Three facts about the source follow from the proofs:

- An internal node's `predict` never reaches a leaf (see Findings). The model
  gives the rendered candidate the meaning the code evidently intends.
- In `works.py`, `decision_tree_learning` only returns a tree that `verify`
  accepts on the same points. So `synthesize` ends in its first iteration,
  and the counterexample branch (works.py:89) is unreachable.
- In `syn.py`, `synthesize` starts with no points, and a term is kept only
  when it matches one of them (`Syn.NoPointsKeepNoTerms`). So the first
  iteration finds no terms and the run returns `None` (`Syn.RunReturnsNone`).

## Model

| member | source | states |
|---|---|---|
| Text.Split | components/grammar.py:37 | `str.split` at one character: one more piece than separators, and no piece contains the separator |
| Text.SplitJoin | components/grammar.py:19 | splitting a `join` at a separator that no part contains gives the parts back |
| Text.FindFrom | components/grammar.py:77 | the first occurrence at or after the start: it occurs there and nowhere earlier; `None` exactly when there is none |
| Text.ReplaceFirst | components/grammar.py:77 | `replace(sub, with, 1)`: unchanged when `sub` occurs nowhere; otherwise the occurrence with none before it is cut out and `with` put in its place, so the length changes by `|with| - |sub|` |
| Text.LexLeTotal | components/grammar.py:14 | Python's string order is total |
| Text.LexLeTransitive | components/grammar.py:14 | Python's string order is transitive |
| Text.LexLeAntisymmetric | components/grammar.py:14 | Python's string order is antisymmetric: two strings each `<=` the other are equal |
| Sorting.SortBy | components/grammar.py:64-65 | `sorted` returns a permutation of its input |
| Sorting.SortBySorted | components/grammar.py:65 | `sorted` under any total preorder key returns a list ordered by that key |
| Sorting.PermutationKeepsDistinct | components/grammar.py:64-65 | sorting a list made from a set keeps it free of duplicates |
| SortKeys.PredicateSortKey | components/utils.py:4-9 | the key is the length, the letters with every non-letter as `z`, and the digits with every non-digit as `9`; both lists have the string's length; the copy in `components/decision_tree/predicate.py` (lines 13-18) is the same function |
| SortKeys.SameKeyIff | components/utils.py:6-9 | two strings share a key iff they have the same length and agree on every letter and every digit position |
| SortKeys.EqualKeys | components/utils.py:6-9 | strings with equal keys have the same length and agree on every letter other than `z` and every digit other than `9` |
| SortKeys.KeysTie | components/utils.py:4-9 | distinct predicates can share a key: `x<y` and `x>y` tie, so the order between them is not fixed by the key |
| SortKeys.ShorterSortsFirst | components/utils.py:9 | a shorter predicate has a smaller key whatever its characters |
| SortKeys.KeyLeTotal | components/grammar.py:65 | the key order is total |
| SortKeys.KeyLeTransitive | components/grammar.py:65 | the key order is transitive |
| SortKeys.DescendingIsTotalPreorder | components/grammar.py:65 | `reverse=True` by the key is a total preorder, so `sorted` yields a descending list |
| SortKeys.AscendingIsTotalPreorder | components/grammar.py:14 | plain string order is a total preorder for `identifiers.sort()` |
| Grammar.Filter | components/grammar.py:13 | a list comprehension with a condition keeps exactly the elements that satisfy it |
| Grammar.FilterAppend | components/grammar.py:23 | filtering distributes over concatenation, so order is kept |
| Grammar.Identifiers | components/grammar.py:11-17 | the identifier terms, as a sorted permutation of the terms that are identifiers |
| Grammar.IdentifiersText | components/grammar.py:19 | `", ".join(identifiers)`: empty when there are no identifiers; otherwise cutting the text at each comma gives the first identifier and then every other one behind a space |
| Grammar.NonRecursiveTerms | components/grammar.py:21-23 | a term is kept iff it is all digits or an identifier |
| Grammar.RecursiveTemplates | components/grammar.py:108-111 | every template that contains `T`, split at its slots, has at least two parts, so it has at least one slot to fill |
| Grammar.MakeStr | components/grammar.py:25-29 | the first part comes first; like `zip(parts, combination + ("",))` parts beyond one more than the combination and fillings beyond as many as the parts are dropped; no parts give the empty string |
| Grammar.MakeStrSnoc | components/grammar.py:25-29 | when the combination fills every slot, filling one more slot with `c` and adding one more part `p` appends `c + p` to the string |
| Grammar.SubstituteMarkerBack | components/grammar.py:25-29 | filling every slot of a split template with the marker itself gives the template back |
| Grammar.Combos | components/grammar.py:38 | `product(pool, repeat=k)`: every combination has length `k` |
| Grammar.CombosSound | components/grammar.py:38 | every combination has length `k` and draws every entry from the pool |
| Grammar.CombosComplete | components/grammar.py:38 | every sequence of length `k` drawn from the pool is a combination |
| Grammar.CombosMembership | components/grammar.py:38 | a sequence is a combination iff it has length `k` and every entry is in the pool |
| Grammar.CombosNonEmpty | components/grammar.py:112 | a non-empty pool has at least one combination |
| Grammar.CombosGrow | components/grammar.py:50 | a larger pool gives at least the same combinations |
| Grammar.PruneParts | components/grammar.py:91-98 | `IndexError` when the first predicate has fewer than two words, the second fewer than three, or the first exactly two words and its first word is the second's third (the `and` then reads `part1[2]`); a two-word first predicate whose first word differs is `False` through the short-circuit; otherwise true iff the operators match and the operands are swapped |
| Grammar.PrunePredicates | components/grammar.py:69-89 | fails iff `_prune_parts` fails; otherwise true iff same-and, opposite-and, opposite-or or same-operator-flipped holds |
| Grammar.NeverOppositeToItself | components/grammar.py:76-81 | a predicate is never the direct opposite of itself |
| Grammar.NotTemplateNeverOpposite | components/grammar.py:77 | an operand `not P` built by the `not C` template is never judged opposite to `P`: removing `not` leaves the space in front |
| Grammar.IdenticalOrOperandsKept | components/grammar.py:84-89 | `P or P` is kept whenever the operand-swap check passes, because `same_or` repeats the opposite test instead of testing for the same predicate |
| Grammar.RecursiveUpToGrows | components/grammar.py:46-62 | each recursive condition only adds predicates |
| Grammar.FailureIsFinal | components/grammar.py:48-53 | once pruning has raised, the whole enumeration raises |
| Grammar.PredicateSetErrors | components/grammar.py:52 | the only error enumeration can raise is `IndexError` from pruning |
| Grammar.NonRecursivePass | components/grammar.py:34-44 | the non-recursive loop builds exactly the non-recursive predicate set |
| Grammar.RecursivePass | components/grammar.py:47-62 | the recursive loop builds exactly the recursive closure, or raises exactly when it does |
| Grammar.BuildPredicateSet | components/grammar.py:33-62 | both loops together compute the predicate set, or its error |
| Grammar.ListSet | components/grammar.py:64 | `list(predicates)` holds exactly the set's elements, each once |
| Grammar.EnumeratePredicates | components/grammar.py:31-67 | raises (`IndexError`) iff the set construction does; otherwise the list holds exactly the predicates, without duplicates, sorted descending by key, with the last element of minimal key |
| Grammar.DescendingSort | components/grammar.py:64-65 | sorting the listed predicates keeps exactly them, without duplicates, ordered descending by key, with a minimal key last |
| Grammar.LastIsMinimal | components/grammar.py:64-65 | in a list sorted descending by key, the last element's key is at most every other key |
| Grammar.NoSelfComparison | components/grammar.py:39-41 | for a comparison template `T op T`, `t op t` is never produced when some character of `op` occurs in no term and not in `t` (composite terms such as `x + y` included) |
| TermEnumeration.TermEnumerator.constructor | components/grammar.py:100-107 | a fresh generator is at its first yield |
| TermEnumeration.TermEnumerator.Next | components/grammar.py:100-115 | the non-recursive terms come first, in order; afterwards each yield is the filling `c` of the active template and joins the seen terms; while a round has fillings left the template stays and `c` is taken from them; when it has none the next template in turn (the first after the last) starts a round holding exactly the fillings of the seen terms, and the template it leaves has yielded every filling of its own round; `None` exactly when the generator can never yield again |
| TermEnumeration.TermEnumerator.YieldNonRecursive | components/grammar.py:103-104 | yields the next non-recursive term and advances the cursor |
| TermEnumeration.TermEnumerator.YieldRecursive | components/grammar.py:109-115 | the yielded term is the active template filled with `c`, a filling removed from the round's pending ones; a finished round first passes to the next template in turn, whose round is every filling of the seen terms |
| TermEnumeration.TermEnumerator.NextTemplate | components/grammar.py:109-112 | the active template becomes the next in turn (the first after the last); its round is exactly the fillings of the seen terms, all pending and none used; the template left behind had yielded every filling of its round |
| TermEnumeration.TermEnumerator.Fillings | components/grammar.py:112 | the result holds exactly the fillings of `k` slots from the seen terms, and there is at least one |
| TermEnumeration.TermEnumerator.TakeFilling | components/grammar.py:112-115 | yields the active template filled with a pending filling `c`, which moves from pending to used; the term is made from the seen terms and joins them |
| TermEnumeration.AllFillingsAreCombos | components/grammar.py:112 | a round holding exactly the fillings of `k` slots from the seen terms is `product(seen_terms, repeat=k)` |
| Specification.Specification.Holds | utils/specification.py:13-30 | true iff the function returns a value and the condition holds for it; a raised exception gives false |
| Specification.HoldsDependsOnOutcome | utils/specification.py:24-26 | two functions with the same outcome at a point are judged the same |
| Specification.HoldsOnlyOnSuccess | utils/specification.py:24-30 | a function that raises at a point never satisfies the specification there |
| DecisionTrees.NewLeaf | utils/decision_tree/leafnode.py:4-6 | a new leaf has its value and no depth |
| DecisionTrees.NewInternal | components/decision_tree/internalnode.py:6-10 | a new internal node has its predicate and branches and no depth; the constructor in `utils/decision_tree/internalnode.py` is the same |
| DecisionTrees.GetIndent | components/decision_tree/dtnode.py:6-10 | `ValueError` iff the depth is unset; otherwise depth + 1 tabs |
| DecisionTrees.SetDepth | components/decision_tree/internalnode.py:24-26 | succeeds iff no branch is `None`; the error is `AttributeError`; on success every node's depth is its distance from the top plus the start, and nothing else changes; a leaf takes the given depth as in `utils/decision_tree/leafnode.py`, and the `utils` internal node recurses the same way |
| DecisionTrees.SetDepthIdempotent | components/decision_tree/internalnode.py:24-26 | setting depths twice from the same start is the same as once |
| DecisionTrees.DepthsFromAreSet | components/decisiontree.py:9 | after `set_depth` every node has a depth, so rendering cannot raise |
| DecisionTrees.Render | components/decision_tree/internalnode.py:28-30 | succeeds iff every node's depth is set; otherwise the error is `ValueError`; a leaf renders as its indent followed by `return value`, as in `utils/decision_tree/leafnode.py`; the `utils` internal node renders the same way |
| DecisionTrees.RenderBranch | components/decision_tree/internalnode.py:30 | a missing branch renders as `None`; otherwise the branch's rendering |
| DecisionTrees.RenderLineBreaks | components/decision_tree/internalnode.py:30 | a rendered tree has exactly three line breaks per internal node |
| DecisionTrees.TreeRender | components/decisiontree.py:25-27 | an empty tree renders as `None`; otherwise it renders iff every node has a depth, and the only error is `ValueError` |
| DecisionTrees.Predict | components/decision_tree/internalnode.py:12-16 | as written: an internal node raises `AttributeError`, in both copies of the internal node; a leaf predicts its value, as in `utils/decision_tree/leafnode.py` |
| DecisionTrees.PredictFailsOnInternalNodes | components/decision_tree/internalnode.py:14-16 | a concrete two-leaf tree on which `predict` raises although both leaves exist |
| DecisionTrees.PredictIntended | components/decision_tree/internalnode.py:12-16 | following the true or false branch: a complete tree always predicts; a prediction is always one of the leaf values, even on an incomplete tree whose missing branch the point avoids; the only failure is `AttributeError` |
| DecisionTrees.SetDepthKeepsPrediction | components/decisiontree.py:9 | setting depths does not change what the tree predicts |
| DecisionTrees.NewDecisionTree | components/decisiontree.py:7-11 | succeeds iff the root exists and is complete (`AttributeError` otherwise); depths start at 0; structure and params are kept; the `utils` copy is the same constructor |
| DecisionTrees.TreePredict | components/decisiontree.py:13-18 | no root gives `ValueError`; a leaf root gives its value; an internal root gives `AttributeError`; the `utils` copy predicts the same way |
| DecisionTrees.ConstructedTreeRenders | components/decisiontree.py:25-27 | a constructed tree's text is its root's rendering and cannot raise, in both copies of the tree |
| DecisionTrees.SpecificationHolds | components/decisiontree.py:37-45 | true iff prediction succeeds and the condition holds on the output; any error gives false |
| DecisionTrees.InternalRootNeverHolds | components/decisiontree.py:37-45 | as written, no tree with an internal root satisfies any specification |
| TestPoints.ScheduleClosedForm | m3.py:186-199 | after `n` points the range bound is `min(10 * 2^(n div 5), sys.maxsize)` and the step is `10 * 2^(n div 5)` |
| TestPoints.ScheduleBounds | m3.py:198 | the range bound stays between 10 and `sys.maxsize` |
| TestPoints.DrawIn | m3.py:175-190 | every drawn coordinate lies in `[-max - 1, max]` |
| TestPoints.Sample | m3.py:186-193 | a point has one coordinate per parameter, each in the current range and within `sys.maxsize` |
| TestPoints.TestPointGenerator.constructor | m3.py:170-173 | the generator starts with range 10, step 10 and no points produced |
| TestPoints.TestPointGenerator.Next | m3.py:186-199 | the yielded point is the sample for the current count; the range and step advance as the schedule says |
| TestPoints.VerifyCandidate | m3.py:290-307 | `None` iff the candidate meets the specification on all `max_checks` sampled points; otherwise the first failing sample |
| M3.CoverUnion | m3.py:118-124 | a point is in the union iff some term's cover holds it |
| M3.CoverUnionWithin | m3.py:118-124 | covers drawn from the points give a union within the points |
| M3.PointsPartition | m3.py:223-224 | the true and false points of a predicate split the points |
| M3.LearnDt | m3.py:210-231 | the result is a tree with no missing branch iff the points are `Learnable`: some term covers them all, or, with a predicate left, both halves of the split on the last predicate are learnable from the rest; `None` iff no term covers all points and no predicate is left; a leaf's term covers the points; an internal node splits on the last predicate; every leaf covers the points that reach it; the height is at most the number of predicates |
| M3.LeavesCoverSound | m3.py:210-231 | in a tree whose leaves cover their points, each point reaches a leaf whose term covers it |
| M3.LearnedTreeSound | m3.py:233-235 | the candidate from a learnt tree satisfies the specification on every known point |
| M3.SetDepthKeepsLeaves | components/decisiontree.py:9 | setting depths keeps the leaf values |
| M3.Synthesizer.constructor | m3.py:7-27 | the session keeps its grammar and specification and starts with no points |
| M3.Synthesizer.Reset | m3.py:60-66 | each iteration starts with empty terms, covers, equivalents and predicates, no tree, and a fresh generator of the session grammar's own terms and templates at its first yield |
| M3.Synthesizer.NextDistinctTerm | m3.py:237-288 | the drawn candidates are exactly the generator's new yields; every candidate but the last was passed over (no cover while there are points, or a kept cover repeated while the covers do not span the points); a found term is the last candidate, new, and stored with its true cover, distinct from every kept cover when there are points; a saturated search means the last candidate repeated a kept cover and the covers span the points; every candidate that repeated a kept cover is recorded as its equivalent; running out happens only when the budget is spent or the generator can never yield |
| M3.Synthesizer.RecordAlias | m3.py:268-271 | records the candidate as equivalent to a kept term, creating its set when missing; covers are unchanged |
| M3.Synthesizer.StoreCover | m3.py:279-280 | stores the candidate's true cover and changes no other cover |
| M3.Synthesizer.ConsiderCandidate | m3.py:248-288 | one candidate: passed over (`None`) iff it covers nothing while there are points or repeats a kept cover while the covers do not span the points; a repeated cover records the candidate as that term's equivalent, and the result is saturated iff the covers span the points; a candidate with a new cover is returned and its cover stored |
| M3.Synthesizer.DrawCandidate | m3.py:246-288 | one pass of the loop: when nothing is drawn the generator is spent and no cover or equivalent changes; otherwise the drawn term is the generator's next yield and its verdict is as for `ConsiderCandidate` |
| M3.AliasesRecordedExtend | m3.py:268-271 | equivalents are never removed, so every candidate recorded as equivalent stays recorded while more are drawn |
| M3.Synthesizer.FindEqualCover | m3.py:263-276 | finds a kept term with exactly the same cover, or shows that there is none |
| M3.Synthesizer.SolveTerms | m3.py:73-75 | the session stays consistent; it reports completion iff the covers span exactly the known points; terms are only added; it stops short only when `fuel` terms were added or the search ran out (`SearchSpent`: the generator can never yield again, or its last `fuel` yields are all passed over in the final state) |
| M3.Synthesizer.LearnDecisionTree | m3.py:201-235 | success gives a tree whose root exists, depths start at 0, params are the identifiers and leaves are kept terms; its candidate satisfies the specification on every known point; it succeeds iff the known points are `Learnable` from the kept terms and predicates, and the only error is `AttributeError` |
| M3.Synthesizer.KeepTerm | m3.py:74-75 | adds a term with its true, distinct cover to the kept terms and changes nothing else |
| M3.Synthesizer.BuildTree | m3.py:88-94 | one unifier round: when predicate enumeration fails it raises `IndexError` and `preds` is unchanged; otherwise `preds` holds exactly the enumerated predicates, without duplicates and sorted by descending key, and a tree is learnt iff the known points are `Learnable`, failing with `AttributeError` otherwise; a learnt tree is sound on the known points; points, terms and covers are unchanged |
| M3.Synthesizer.AddDistinctTerm | m3.py:83-84 | the next distinct term joins the kept terms when it is a non-empty found term, and otherwise the terms are unchanged; the generator's yields only grow; running out happens only when the search ran out (`SearchSpent`) |
| M3.Synthesizer.Unify | m3.py:81-99 | the unifier either learns a tree sound on every known point or stops; the session stays consistent and keeps its generator; it runs out only when the search ran out (`SearchSpent`); it raises `IndexError` exactly when predicate enumeration fails, and `AttributeError` when the points are not `Learnable` from the enumerated predicates |
| M3.Synthesizer.SolveAndUnify | m3.py:60-99 | reset, term solver and unifier: the generator is a fresh one of the session grammar; either a tree sound on every known point, or it runs out only when `fuel` terms were added or the search ran out (`SearchSpent`), or it raises for the reason `Unify` gives |
| M3.Synthesizer.VerifyTree | m3.py:101-115 | with no counterexample among the samples the learnt tree is the answer and holds on every sample; otherwise the points grow by exactly one sample, numbered below the check limit, on which the candidate fails |
| M3.Synthesizer.RunIteration | m3.py:60-115 | one iteration: it either adds exactly one sampled point on which the learnt tree's candidate fails, or stops with the points unchanged; a synthesised tree holds on every known and every sampled point; the generator is a fresh one of the session grammar; running out and raising happen only for the reasons `SolveAndUnify` gives |
| M3.Synthesizer.SampledByStep | m3.py:104-115 | when an iteration adds its own sample to the points, every point added since the start is a sample of some iteration so far |
| M3.Synthesizer.Synthesize | m3.py:29-116 | the known points only grow, by at most one per iteration and exactly one per finished iteration, and every added point is test point `k < max_verify_checks` of some iteration up to the last; the iteration limit is respected; a synthesised tree satisfies the specification on every known point and on every sampled test point; once an iteration ran, the generator is the session grammar's; it runs out of fuel only when `fuel` iterations ran, an iteration kept `fuel` terms, or the search ran out (`SearchSpent`); it raises `IndexError` exactly when predicate enumeration failed and `AttributeError` when the points were not learnable |
| Works.EvaluateTree | works.py:51-56 | a successful evaluation is the value of one of the tree's leaf terms at the point |
| Works.StumpEvaluation | works.py:51-56 | a one-predicate tree takes its first term where the predicate holds, its second where it does not, and raises with the predicate |
| Works.Synthesis.constructor | works.py:2-8 | a new synthesis has no points, terms, predicates or covers |
| Works.Synthesis.VerifyPoint | works.py:29-35 | false when evaluation raises; otherwise true iff the value is the expected output |
| Works.Synthesis.CoverTerm | works.py:14-18 | a term's cover grows by exactly the points it matches |
| Works.Synthesis.CoversGrownStep | works.py:13-20 | growing one more term's cover by the points it matches keeps every other cover, and adds the term to the new terms exactly when its cover is non-empty |
| Works.Synthesis.BottomUpEnumerateTerms | works.py:10-22 | every grammar term gets a cover grown by the points it matches; the terms with a non-empty cover join `terms` |
| Works.Synthesis.BottomUpEnumeratePreds | works.py:24-27 | every grammar predicate joins `preds` |
| Works.Synthesis.Verify | works.py:58-70 | true iff the tree evaluates to the expected output on every point; otherwise a point where it fails or raises |
| Works.Synthesis.DecisionTreeLearning | works.py:37-49 | a returned tree is a stump over kept predicates and terms that is correct on every point; `None` iff no such stump exists |
| Works.Synthesis.TryPredicate | works.py:41-48 | for one predicate, a correct stump or proof that no pair of terms gives one |
| Works.Synthesis.AddCounterexample | works.py:72-74 | the counterexample joins the points |
| Works.Synthesis.Synthesize | works.py:76-91 | the examples join the points; with an iteration limit of at least 1 every grammar predicate joins `preds`, every grammar term's cover grows by the points it matches and the terms with a non-empty cover join `terms`; below 1 terms, predicates and covers are unchanged; `None` iff the iteration limit is below 1; raising means no correct stump exists; a returned tree is correct on every example |
| Syn.KeptTerms | syn.py:24-51 | a term is kept iff it matches at least one point; grammar order is kept |
| Syn.NoPointsKeepNoTerms | syn.py:95-105 | with no points no term is kept |
| Syn.BottomUpEnumerateTerms | syn.py:24-51 | the loop computes exactly the kept terms; a term that raises at a point is skipped at that point |
| Syn.AnyHolds | syn.py:59 | true at the first point where the predicate holds, false when it holds nowhere, and the first error otherwise |
| Syn.EnumeratedPredsFailure | syn.py:54-61 | the enumeration raises only when there is at least one point and some grammar predicate raises at one of them; the error is that predicate's |
| Syn.EnumeratedPredsCounts | syn.py:56-60 | a predicate that holds somewhere is listed once per point for each of its grammar occurrences; otherwise it is not listed |
| Syn.EnumeratedPredsFailureFinal | syn.py:54-61 | once the predicates so far have raised, the enumeration raises that error whatever predicates follow |
| Syn.BottomUpEnumeratePreds | syn.py:54-61 | the loop computes exactly the enumerated predicates or their error |
| Syn.LearnDecisionTree | syn.py:78-84 | `None` iff there are no terms; otherwise one of the terms |
| Syn.CreateExpressionFromTree | syn.py:72-76 | no tree gives `"0"`; otherwise the term's code |
| Syn.Verify | syn.py:87-91 | correct iff every example matches; otherwise the first mismatch as counterexample, or the first error raised |
| Syn.RunReturnsNone | syn.py:95-105 | a run from no points returns `None` in its first iteration with no points: no term matches a point when there is none |
| Syn.Synthesize | syn.py:94-124 | the loop computes exactly `SynthesisRun` (the iterations as a recursive function) from no points, so every run returns `None` with no points; a returned term would come from the grammar and match every example; the kept points are distinct examples, at most one per iteration |

## Left out

- `exec`/`eval`, `code_to_func`, `evaluate_predicate`, `Predicate.exec` and `decision_tree_to_func` are not modelled as code. They become function parameters: a term's value and a predicate's truth at a point.
- Printing is left out: `fprint`, verbose output, `_expr_to_func_str`, and the messages in `works.py` and `syn.py`.
- M3.Synthesizer.Synthesize: `_expr_to_func_callable` returns `None` in the source. `Synthesized(tree)` stands for that return and carries the verified tree.
- M3.Synthesizer.Synthesize: the `exec` of the rendered candidate is not modelled. The candidate's meaning is the term at the leaf the point reaches (`M3.Candidate`).
- M3.Synthesizer.LearnDecisionTree: a predicate's truth is total. In the source, a predicate that raises inside `learn_dt` aborts the whole run.
- M3.Synthesizer.NextDistinctTerm: `code_to_func` is never modelled as raising. A term whose text does not compile raises outside `holds` in the source.
- M3 uses the session's own grammar at m3.py:223-224 and m3.py:300. The source uses the module-level `grammar` defined only when `m3.py` runs as a script.
- `random.randint` is a parameter of raw draws, reduced into the range. `sys.maxsize` is the 64-bit value `2^63 - 1`.
- M3.Synthesizer.Synthesize: loops that can run forever are bounded by a `fuel` parameter. These are the term generator, `_next_distinct_term`, the unifier and `synthesize` with no limit. `OutOfFuel` stands for a run that does not end within it. The contracts state that `OutOfFuel` is returned only when `fuel` iterations ran, an iteration kept `fuel` terms, or the generator can never yield again, or its last `fuel` yields are all passed over in the final state (`SearchSpent`). They do not state that a longer budget would never end.
- `product` order and set iteration order are arbitrary in the model. `EnumeratePredicates` pins the order only up to the sort key, which does not fix the order of predicates with the same key (`SortKeys.KeysTie`).
- DecisionTrees.SetDepth: nodes are values, so in-place updates and sharing of nodes between trees are not modelled.
- DecisionTrees.Predict: the components version first calls `evaluate_predicate` on the `Predicate` object itself, which raises before `self.left` is read. The model records `AttributeError` for every internal node, and `AttributeError` can stand for a different exception kind.
- Integer width: Python integers are unbounded, and so are the model's.
- `isidentifier`, `isdigit` and `isalpha` are modelled over ASCII only.
- Works.Synthesis.Synthesize: the `timeout` parameter is unused in the source and left out. The counterexample branch (works.py:89) is unreachable and has no model.
- Works and Syn: an evaluation that returns a non-integer value, or a predicate that returns a non-boolean, is not modelled.
- `main.py` and `utils/grammar.py` are not part of this model. They are a driver and an older copy of the grammar.
- `utils/decision_tree/predicate.py` holds only `Predicate.exec`, which is replaced as above.
- `components/decision_tree/leafnode.py` and `utils/decision_tree/dtnode.py` are not part of this model. The leaf is taken to behave like `utils/decision_tree/leafnode.py` and the base node like `components/decision_tree/dtnode.py`.

## Findings

| source | as written | input that shows it | evidently intended | confidence | as-written member | corrected member |
|---|---|---|---|---|---|---|
| components/decision_tree/internalnode.py:12-16 (also utils/decision_tree/internalnode.py:13-17) | `predict` descends into `self.left` / `self.right`, which no constructor sets, so every internal node raises `AttributeError` | `InternalNode(Predicate("x < y"), LeafNode("y"), LeafNode("x"))` at `(0, 1)` | descend into `true_branch` / `false_branch` | high, not executed | DecisionTrees.PredictFailsOnInternalNodes | DecisionTrees.PredictIntended |
