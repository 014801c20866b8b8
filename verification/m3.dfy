/**
 * The CEGIS driver `M3` (m3.py): the term solver, which enumerates terms
 * with distinct covers; the unifier, which learns a decision tree over the
 * enumerated predicates; and the verifier, which samples test points and
 * returns a counterexample.
 *
 * Running source text is replaced by evaluators: `termValue(t, pt)` is the
 * outcome of calling a function whose body is `return t` on the point, and
 * `predTrue(p, pt)` is the truth value of the predicate text `p` there.
 */
module M3 {
  import opened Wrappers
  import opened Grammar
  import opened TermEnumeration
  import opened Specification
  import opened DecisionTrees
  import opened TestPoints
  import opened Sorting
  import opened SortKeys

  /** `cover.get(t, set())`. */
  function CoverOf(cover: map<string, set<Point>>, t: string): set<Point> {
    if t in cover then cover[t] else {}
  }

  /** `equivalent_terms.get(e, set())`. */
  function AliasesOf(aliases: map<string, set<string>>, e: string): set<string> {
    if e in aliases then aliases[e] else {}
  }

  /**
   * `_next_distinct_term` draws again after a candidate whose cover is
   * `tCover`: it covers no point while there are points, or a kept term
   * has the same cover while the covers do not yet cover every point.
   */
  predicate PassedOver(tCover: set<Point>, pts: set<Point>, terms: set<string>, cover: map<string, set<Point>>) {
    || (pts != {} && tCover == {})
    || ((exists e :: e in terms && e in cover && cover[e] == tCover) && CoverUnion(cover) != pts)
  }

  /**
   * Every drawn candidate whose cover is the cover of a kept term is listed
   * among that term's equivalents.
   */
  ghost predicate AliasesRecorded(drawn: seq<string>, terms: set<string>, cover: map<string, set<Point>>, pts: set<Point>,
                                  spec: Specification<int>, termValue: (string, Point) -> Result<int, Error>,
                                  aliases: map<string, set<string>>)
  {
    forall c, e :: c in drawn && e in terms && e in cover && cover[e] == TermCoverOf(pts, spec, termValue, c) ==>
      e in aliases && c in aliases[e]
  }

  /** Aliases are never removed, so a recorded candidate stays recorded as more are drawn. */
  lemma AliasesRecordedExtend(drawn: seq<string>, x: string, terms: set<string>, cover: map<string, set<Point>>,
                              pts: set<Point>, spec: Specification<int>, termValue: (string, Point) -> Result<int, Error>,
                              aliases0: map<string, set<string>>, aliases1: map<string, set<string>>)
    requires AliasesRecorded(drawn, terms, cover, pts, spec, termValue, aliases0)
    requires forall e :: e in aliases0 ==> e in aliases1 && aliases0[e] <= aliases1[e]
    requires forall e :: e in terms && e in cover && cover[e] == TermCoverOf(pts, spec, termValue, x) ==>
      e in aliases1 && x in aliases1[e]
    ensures AliasesRecorded(drawn + [x], terms, cover, pts, spec, termValue, aliases1)
  {
  }

  /** The points of `pts` on which the term `t` satisfies the specification. */
  function TermCoverOf(pts: set<Point>, spec: Specification<int>, termValue: (string, Point) -> Result<int, Error>, t: string): set<Point> {
    set p | p in pts && spec.Holds(q => termValue(t, q), p)
  }

  /** `_cover_union()`: every point some stored cover contains. */
  function CoverUnion(cover: map<string, set<Point>>): (r: set<Point>)
    ensures forall p :: p in r <==> exists t :: t in cover && p in cover[t]
  {
    set t, p | t in cover && p in cover[t] :: p
  }

  /** When every stored cover lies within the points, so does their union. */
  lemma CoverUnionWithin(cover: map<string, set<Point>>, pts: set<Point>)
    requires forall t :: t in cover ==> cover[t] <= pts
    ensures CoverUnion(cover) <= pts
  {
  }

  /** `pts_true`: the points where the predicate holds. */
  function TruePoints(pts: set<Point>, pred: string, predTrue: (string, Point) -> bool): set<Point> {
    set p | p in pts && predTrue(pred, p)
  }

  /** `pts_false`: the points where it does not. */
  function FalsePoints(pts: set<Point>, pred: string, predTrue: (string, Point) -> bool): set<Point> {
    set p | p in pts && !predTrue(pred, p)
  }

  /** The two branches' point sets partition the node's points. */
  lemma PointsPartition(pts: set<Point>, pred: string, predTrue: (string, Point) -> bool)
    ensures TruePoints(pts, pred, predTrue) * FalsePoints(pts, pred, predTrue) == {}
    ensures TruePoints(pts, pred, predTrue) + FalsePoints(pts, pred, predTrue) == pts
  {
  }

  /** Every leaf's term covers every point the tree routes to that leaf. */
  ghost predicate LeavesCover(n: Node, pts: set<Point>, cover: map<string, set<Point>>, predTrue: (string, Point) -> bool)
    decreases n
  {
    match n
    case Leaf(v, _) => pts <= CoverOf(cover, v)
    case Internal(p, t, f, _) =>
      && (t.Some? ==> LeavesCover(t.value, TruePoints(pts, p.str, predTrue), cover, predTrue))
      && (f.Some? ==> LeavesCover(f.value, FalsePoints(pts, p.str, predTrue), cover, predTrue))
  }

  /**
   * `learn_dt` builds a tree with no missing branch: some term covers all
   * the points, or a predicate is left and both the true and the false
   * points are learnable with the shortened list.
   */
  ghost predicate Learnable(pts: set<Point>, terms: set<string>, cover: map<string, set<Point>>, preds: seq<string>,
                            predTrue: (string, Point) -> bool)
    decreases |preds|
  {
    || (exists t :: t in terms && pts <= CoverOf(cover, t))
    || (&& preds != []
        && Learnable(TruePoints(pts, preds[|preds| - 1], predTrue), terms, cover, preds[..|preds| - 1], predTrue)
        && Learnable(FalsePoints(pts, preds[|preds| - 1], predTrue), terms, cover, preds[..|preds| - 1], predTrue))
  }

  /** The longest path from the node down to a leaf, in edges. */
  function Height(n: Node): nat
    decreases n
  {
    match n
    case Leaf(_, _) => 0
    case Internal(_, t, f, _) =>
      var ht := if t.Some? then Height(t.value) else 0;
      var hf := if f.Some? then Height(f.value) else 0;
      1 + (if ht < hf then hf else ht)
  }

  /**
   * `learn_dt(pts, terms, cover, preds)`: a leaf for some term covering all
   * the points (terms are tried in set order), else `None` when no predicate
   * is left, else an internal node on the last predicate whose branches are
   * learnt on the true and the false points with the shortened list. A
   * branch that fails stays `None` inside the node.
   */
  method LearnDt(pts: set<Point>, terms: set<string>, cover: map<string, set<Point>>, preds: seq<string>,
                 predTrue: (string, Point) -> bool) returns (node: Option<Node>)
    decreases |preds|
    ensures node.None? <==> (forall t :: t in terms ==> !(pts <= CoverOf(cover, t))) && preds == []
    ensures node.Some? && node.value.Leaf? ==> node.value.value in terms && pts <= CoverOf(cover, node.value.value)
    ensures node.Some? && node.value.Internal? ==>
      && preds != [] && node.value.pred == Predicate(preds[|preds| - 1])
      && forall t :: t in terms ==> !(pts <= CoverOf(cover, t))
    ensures node.Some? ==> LeavesCover(node.value, pts, cover, predTrue) && LeafValues(node.value) <= terms
    ensures node.Some? ==> Height(node.value) <= |preds| && Strip(node.value) == node.value
    ensures node.Some? && Complete(node.value) <==> Learnable(pts, terms, cover, preds, predTrue)
  {
    var remaining := terms;
    while remaining != {}
      invariant remaining <= terms
      invariant forall t :: t in terms - remaining ==> !(pts <= CoverOf(cover, t))
      decreases remaining
    {
      var term :| term in remaining;
      if pts <= CoverOf(cover, term) {
        return Some(NewLeaf(term));
      }
      remaining := remaining - {term};
    }
    if preds == [] {
      return None;
    }
    var pred := Predicate(preds[|preds| - 1]);
    var rest := preds[..|preds| - 1];
    var ptsTrue := TruePoints(pts, pred.str, predTrue);
    var ptsFalse := FalsePoints(pts, pred.str, predTrue);
    var trueBranch := LearnDt(ptsTrue, terms, cover, rest, predTrue);
    var falseBranch := LearnDt(ptsFalse, terms, cover, rest, predTrue);
    node := Some(NewInternal(pred, trueBranch, falseBranch));
  }

  /**
   * A complete tree whose leaves cover their points sends every point to a
   * leaf whose term covers it.
   */
  lemma {:induction false} LeavesCoverSound(n: Node, pts: set<Point>, cover: map<string, set<Point>>,
                                            predTrue: (string, Point) -> bool, p: Point)
    requires Complete(n) && LeavesCover(n, pts, cover, predTrue) && p in pts
    ensures PredictIntended(n, p, predTrue).Success?
    ensures p in CoverOf(cover, PredictIntended(n, p, predTrue).value)
    decreases n
  {
    match n
    case Leaf(_, _) =>
    case Internal(pr, t, f, _) =>
      if predTrue(pr.str, p) {
        LeavesCoverSound(t.value, TruePoints(pts, pr.str, predTrue), cover, predTrue, p);
      } else {
        LeavesCoverSound(f.value, FalsePoints(pts, pr.str, predTrue), cover, predTrue, p);
      }
  }

  /** What the rendered candidate computes at a point: the term at the leaf the point reaches, evaluated there. */
  function CandidateOutcome(root: Node, termValue: (string, Point) -> Result<int, Error>,
                            predTrue: (string, Point) -> bool, pt: Point): Result<int, Error>
  {
    match PredictIntended(root, pt, predTrue)
    case Failure(e) => Failure(e)
    case Success(t) => termValue(t, pt)
  }

  /** The candidate as a function of the point (an empty tree raises `ValueError`). */
  function Candidate(tree: DecisionTree, termValue: (string, Point) -> Result<int, Error>,
                     predTrue: (string, Point) -> bool): Point -> Result<int, Error>
  {
    pt => if tree.root.None? then Failure(ValueError) else CandidateOutcome(tree.root.value, termValue, predTrue, pt)
  }

  /**
   * Soundness of the unifier: when every stored cover is the term's true
   * cover and the learnt tree's leaves cover their points, the candidate
   * built from the tree satisfies the specification on every point.
   */
  lemma LearnedTreeSound(root: Node, pts: set<Point>, cover: map<string, set<Point>>, spec: Specification<int>,
                         termValue: (string, Point) -> Result<int, Error>, predTrue: (string, Point) -> bool,
                         params: seq<string>)
    requires forall t :: t in cover ==> cover[t] == TermCoverOf(pts, spec, termValue, t)
    requires LeavesCover(root, pts, cover, predTrue)
    requires NewDecisionTree(Some(root), params).Success?
    ensures forall p :: p in pts ==> spec.Holds(Candidate(NewDecisionTree(Some(root), params).value, termValue, predTrue), p)
  {
    var tree := NewDecisionTree(Some(root), params).value;
    forall p | p in pts
      ensures spec.Holds(Candidate(tree, termValue, predTrue), p)
    {
      LeavesCoverSound(root, pts, cover, predTrue, p);
      SetDepthKeepsPrediction(root, 0, p, predTrue);
      var t := PredictIntended(root, p, predTrue).value;
      assert p in TermCoverOf(pts, spec, termValue, t);
      HoldsDependsOnOutcome(spec, Candidate(tree, termValue, predTrue), q => termValue(t, q), p);
    }
  }

  /** The raw draws of the verifier's generator in iteration `i`. */
  function IterationDraw(randomDraw: (nat, nat, nat) -> int, i: nat): (nat, nat) -> int {
    (k: nat, c: nat) => randomDraw(i, k, c)
  }

  /** The three ways `_next_distinct_term` can end, plus running out of the step budget. */
  datatype NextTerm =
    | Found(term: string)     // a term with a new cover
    | Saturated               // `return` with no value: the covers already cover every point
    | Diverges                // the search does not end within the budget

  /**
   * How `synthesize` ends. Python returns `None` in the first two cases
   * (`_expr_to_func_callable` is a stub returning `None`); `Synthesized`
   * records the tree the candidate was built from.
   */
  datatype Outcome =
    | Synthesized(tree: DecisionTree)
    | IterationLimit
    | Raised(error: Error)
    | OutOfFuel

  /** `M3(grammar, specification)`: the synthesiser and the state of its current iteration. */
  class Synthesizer {
    const grammar: Grammar
    const spec: Specification<int>
    const termValue: (string, Point) -> Result<int, Error>
    const predTrue: (string, Point) -> bool
    /** `randomDraw(i, k, c)`: the raw draw behind coordinate `c` of the `k`-th sample in iteration `i`. */
    const randomDraw: (nat, nat, nat) -> int
    var pts: set<Point>
    var iteration: nat
    var terms: set<string>
    var equivalentTerms: map<string, set<string>>
    var preds: seq<string>
    var cover: map<string, set<Point>>
    var decisionTree: Option<DecisionTree>
    var termsEnumerated: TermEnumerator

    constructor (grammar: Grammar, spec: Specification<int>, termValue: (string, Point) -> Result<int, Error>,
                 predTrue: (string, Point) -> bool, randomDraw: (nat, nat, nat) -> int)
      ensures this.grammar == grammar && this.spec == spec && this.termValue == termValue
      ensures this.predTrue == predTrue && this.randomDraw == randomDraw
      ensures pts == {}
    {
      this.grammar := grammar;
      this.spec := spec;
      this.termValue := termValue;
      this.predTrue := predTrue;
      this.randomDraw := randomDraw;
      pts := {};
      iteration := 0;
      terms := {};
      equivalentTerms := map[];
      preds := [];
      cover := map[];
      decisionTree := None;
      termsEnumerated := new TermEnumerator(grammar);
    }

    function TermCover(t: string): set<Point>
      reads this`pts
    {
      TermCoverOf(pts, spec, termValue, t)
    }

    /** The invariant of one iteration: stored covers are true covers, and the kept terms' covers are distinct. */
    /** The term generator is the session grammar's own (`self.grammar.enumerate_terms()`). */
    predicate FromGrammar()
      reads this`termsEnumerated
    {
      && termsEnumerated.nonRecursive == NonRecursiveTerms(grammar)
      && termsEnumerated.templates == RecursiveTemplates(grammar)
    }

    /**
     * A search with budget `fuel` ran out: the generator can never yield
     * again, or its last `fuel` yields are all passed over in the current state.
     */
    ghost predicate SearchSpent(fuel: nat)
      reads this, termsEnumerated
    {
      || termsEnumerated.Exhausted()
      || (&& fuel <= |termsEnumerated.yielded|
          && forall c :: c in termsEnumerated.yielded[|termsEnumerated.yielded| - fuel..] ==>
               PassedOver(TermCover(c), pts, terms, cover))
    }

    /** `p` is test point number `k < maxChecks` of some iteration from 1 to `upTo`. */
    ghost predicate SampledBy(p: Point, upTo: nat, maxChecks: int)
    {
      exists i: nat, k: nat :: 1 <= i <= upTo && k < maxChecks
        && p == SamplePoint(IterationDraw(randomDraw, i), |Identifiers(grammar)|, k)
    }

    /** The points an iteration adds are its own samples, so every added point stays a sample of an iteration so far. */
    lemma SampledByStep(start: set<Point>, before: set<Point>, after: set<Point>, upTo: nat, maxChecks: int, sample: nat)
      requires 1 <= upTo && sample < maxChecks
      requires forall p :: p in before && p !in start ==> SampledBy(p, upTo - 1, maxChecks)
      requires after == before + {SamplePoint(IterationDraw(randomDraw, upTo), |Identifiers(grammar)|, sample)}
      ensures forall p :: p in after && p !in start ==> SampledBy(p, upTo, maxChecks)
    {
      forall p | p in after && p !in start
        ensures SampledBy(p, upTo, maxChecks)
      {
        if p in before {
          var i: nat, k: nat :| 1 <= i <= upTo - 1 && k < maxChecks
            && p == SamplePoint(IterationDraw(randomDraw, i), |Identifiers(grammar)|, k);
        } else {
          assert p == SamplePoint(IterationDraw(randomDraw, upTo), |Identifiers(grammar)|, sample);
        }
      }
    }

    ghost predicate SessionValid()
      reads this, termsEnumerated
    {
      && termsEnumerated.Valid()
      && terms <= cover.Keys
      && (forall t :: t in cover ==> cover[t] == TermCover(t))
      && (forall t1, t2 :: t1 in terms && t2 in terms && t1 != t2 ==> cover[t1] != cover[t2])
      && (pts != {} ==> forall t :: t in terms ==> cover[t] != {})
    }

    /** The fields `_next_distinct_term` leaves alone. */
    twostate predicate SearchFrame()
      reads this
    {
      && pts == old(pts) && terms == old(terms) && preds == old(preds) && iteration == old(iteration)
      && decisionTree == old(decisionTree) && termsEnumerated == old(termsEnumerated)
    }

    /** Aliases are only ever added, and only under kept terms. */
    twostate predicate AliasesGrow()
      reads this
    {
      && (forall e :: e in old(equivalentTerms) ==> e in equivalentTerms && old(equivalentTerms)[e] <= equivalentTerms[e])
      && equivalentTerms.Keys <= old(equivalentTerms).Keys + terms
    }

    /**
     * `_next_distinct_term()`: draws candidates from the term generator. A
     * candidate covering no point is skipped (unless there are no points);
     * one with the same cover as a kept term is recorded as its equivalent,
     * and the search stops if the covers already cover every point;
     * otherwise its cover is stored and it is returned.
     */
    method NextDistinctTerm(fuel: nat) returns (r: NextTerm, ghost drawn: seq<string>)
      requires SessionValid()
      modifies this, termsEnumerated
      ensures SessionValid() && SearchFrame() && AliasesGrow()
      ensures termsEnumerated.yielded == old(termsEnumerated.yielded) + drawn && |drawn| <= fuel
      ensures r.Diverges? ==>
        && (|drawn| == fuel || termsEnumerated.Exhausted())
        && forall c :: c in drawn ==> PassedOver(TermCover(c), pts, terms, cover)
      ensures !r.Diverges? ==>
        && drawn != []
        && forall c :: c in drawn[..|drawn| - 1] ==> PassedOver(TermCover(c), pts, terms, old(cover))
      ensures r.Found? ==> r.term == drawn[|drawn| - 1]
      ensures r.Saturated? ==> exists e :: e in terms && cover[e] == TermCover(drawn[|drawn| - 1])
      ensures AliasesRecorded(drawn, terms, old(cover), pts, spec, termValue, equivalentTerms)
      ensures r.Found? ==> r.term !in terms && cover == old(cover)[r.term := TermCover(r.term)]
      ensures r.Found? && pts != {} ==>
        TermCover(r.term) != {} && forall e :: e in terms ==> cover[e] != TermCover(r.term)
      ensures r.Found? && pts == {} ==> terms == {}
      ensures !r.Found? ==> cover == old(cover)
      ensures r.Saturated? ==> CoverUnion(cover) == pts
    {
      var budget := fuel;
      drawn := [];
      while budget > 0
        invariant SessionValid() && SearchFrame() && AliasesGrow() && cover == old(cover)
        invariant termsEnumerated.yielded == old(termsEnumerated.yielded) + drawn && |drawn| + budget == fuel
        invariant forall c :: c in drawn ==> PassedOver(TermCover(c), pts, terms, cover)
        invariant AliasesRecorded(drawn, terms, old(cover), pts, spec, termValue, equivalentTerms)
        decreases budget
      {
        budget := budget - 1;
        ghost var prior, aliases := drawn, equivalentTerms;
        var next, verdict := DrawCandidate();
        if next.None? {
          return Diverges, drawn;
        }
        AliasesRecordedExtend(drawn, next.value, terms, old(cover), pts, spec, termValue, aliases, equivalentTerms);
        drawn := drawn + [next.value];
        if verdict.Some? {
          assert drawn[..|drawn| - 1] == prior;
          return verdict.value, drawn;
        }
      }
      return Diverges, drawn;
    }

    /** One pass of the loop of `_next_distinct_term`: the generator's next term, and what becomes of it. */
    method DrawCandidate() returns (next: Option<string>, verdict: Option<NextTerm>)
      requires SessionValid()
      modifies this, termsEnumerated
      ensures SessionValid() && SearchFrame() && AliasesGrow()
      ensures next.None? ==>
        && verdict.None? && termsEnumerated.Exhausted() && cover == old(cover)
        && termsEnumerated.yielded == old(termsEnumerated.yielded) && equivalentTerms == old(equivalentTerms)
      ensures next.Some? ==> termsEnumerated.yielded == old(termsEnumerated.yielded) + [next.value]
      ensures next.Some? ==> (verdict.None? <==> PassedOver(TermCover(next.value), pts, terms, old(cover)))
      ensures verdict != Some(Diverges)
      ensures verdict.Some? && verdict.value.Found? ==> verdict.value.term == next.value
      ensures verdict.Some? && verdict.value.Found? ==>
        && verdict.value.term !in terms && cover == old(cover)[verdict.value.term := TermCover(verdict.value.term)]
      ensures verdict.Some? && verdict.value.Found? && pts != {} ==>
        TermCover(verdict.value.term) != {} && forall e :: e in terms ==> cover[e] != TermCover(verdict.value.term)
      ensures verdict.Some? && verdict.value.Found? && pts == {} ==> terms == {}
      ensures !(verdict.Some? && verdict.value.Found?) ==> cover == old(cover)
      ensures verdict == Some(Saturated) ==>
        CoverUnion(cover) == pts && exists e :: e in terms && cover[e] == TermCover(next.value)
      ensures next.Some? ==> forall e :: e in terms && old(cover)[e] == TermCover(next.value) ==>
        e in equivalentTerms && next.value in equivalentTerms[e]
    {
      var t, _ := termsEnumerated.Next();
      next := t;
      if t.None? {
        return None, None;
      }
      verdict := ConsiderCandidate(t.value);
    }

    /** One pass of the `while True` loop of `_next_distinct_term` for a drawn candidate; `None` means draw another. */
    method ConsiderCandidate(candidate: string) returns (r: Option<NextTerm>)
      requires SessionValid()
      modifies this
      ensures SessionValid() && SearchFrame() && AliasesGrow()
      ensures r != Some(Diverges)
      ensures r == Some(Found(candidate)) ==> candidate !in terms && cover == old(cover)[candidate := TermCover(candidate)]
      ensures r == Some(Found(candidate)) && pts != {} ==>
        TermCover(candidate) != {} && forall e :: e in terms ==> cover[e] != TermCover(candidate)
      ensures r == Some(Found(candidate)) && pts == {} ==> terms == {}
      ensures r.Some? ==> r.value.Found? ==> r.value.term == candidate
      ensures r != Some(Found(candidate)) ==> cover == old(cover)
      ensures r == Some(Saturated) ==> CoverUnion(cover) == pts
      ensures r.None? <==> PassedOver(TermCover(candidate), pts, terms, old(cover))
      ensures pts != {} && TermCover(candidate) == {} ==> r.None? && equivalentTerms == old(equivalentTerms)
      ensures (pts == {} || TermCover(candidate) != {}) && (forall e :: e in terms ==> old(cover)[e] != TermCover(candidate)) ==>
        r == Some(Found(candidate)) && equivalentTerms == old(equivalentTerms)
      ensures forall e :: e in terms && old(cover)[e] == TermCover(candidate) ==>
        && equivalentTerms == old(equivalentTerms)[e := AliasesOf(old(equivalentTerms), e) + {candidate}]
        && (r == Some(Saturated) <==> CoverUnion(cover) == pts)
        && (r.None? <==> CoverUnion(cover) != pts)
    {
      var tCover := if pts != {} then TermCover(candidate) else {};
      assert tCover == TermCover(candidate);
      if tCover == {} && pts != {} {
        return None;
      }
      var existing := FindEqualCover(tCover);
      var distinct := existing.None?;
      if existing.Some? {
        RecordAlias(existing.value, candidate);
        if CoverUnion(cover) == pts {
          return Some(Saturated);
        }
      }
      if distinct || pts == {} {
        if pts == {} {
          CoverUnionWithin(cover, pts);
        }
        StoreCover(candidate);
        return Some(Found(candidate));
      }
      return None;
    }

    /** `self.equivalent_terms[existing_t].add(candidate_term)`, creating the entry when missing. */
    method RecordAlias(e: string, candidate: string)
      requires SessionValid() && e in terms
      modifies this
      ensures SessionValid() && SearchFrame() && AliasesGrow() && cover == old(cover)
      ensures equivalentTerms == old(equivalentTerms)[e := AliasesOf(old(equivalentTerms), e) + {candidate}]
    {
      equivalentTerms := equivalentTerms[e := AliasesOf(equivalentTerms, e) + {candidate}];
    }

    /** `self.cover[candidate_term] = t_cover` for a candidate that is not kept yet. */
    method StoreCover(candidate: string)
      requires SessionValid()
      requires pts != {} ==> forall e :: e in terms ==> cover[e] != TermCover(candidate)
      requires pts != {} ==> candidate !in terms
      requires pts == {} ==> terms == {}
      modifies this
      ensures SessionValid() && SearchFrame() && AliasesGrow()
      ensures cover == old(cover)[candidate := TermCover(candidate)]
      ensures equivalentTerms == old(equivalentTerms)
    {
      cover := cover[candidate := TermCover(candidate)];
    }

    /** The `for existing_t in self.terms` search: some kept term with exactly this cover (set order is arbitrary). */
    method FindEqualCover(tCover: set<Point>) returns (existing: Option<string>)
      requires terms <= cover.Keys
      ensures existing.Some? ==> existing.value in terms && cover[existing.value] == tCover
      ensures existing.None? ==> forall e :: e in terms ==> cover[e] != tCover
    {
      var remaining := terms;
      while remaining != {}
        invariant remaining <= terms
        invariant forall e :: e in terms - remaining ==> cover[e] != tCover
        decreases remaining
      {
        var e :| e in remaining;
        if tCover == cover[e] {
          return Some(e);
        }
        remaining := remaining - {e};
      }
      return None;
    }

    /**
     * `_learn_decision_tree()`: learns from all points, the kept terms, their
     * covers and a copy of `preds`, then wraps the result in a
     * `DecisionTree`, which raises when the learnt root or any branch is `None`.
     */
    method LearnDecisionTree() returns (r: Result<DecisionTree, Error>)
      requires SessionValid()
      ensures r.Success? <==> Learnable(pts, terms, cover, preds, predTrue)
      ensures r.Failure? ==> r.error == AttributeError
      ensures r.Success? ==> r.value.root.Some? && r.value.params == Identifiers(grammar)
      ensures r.Success? ==> DepthsFrom(r.value.root.value, 0) && LeafValues(r.value.root.value) <= terms
      ensures r.Success? ==> forall p :: p in pts ==> spec.Holds(Candidate(r.value, termValue, predTrue), p)
    {
      var root := LearnDt(pts, terms, cover, preds, predTrue);
      r := NewDecisionTree(root, Identifiers(grammar));
      if r.Success? {
        LearnedTreeSound(root.value, pts, cover, spec, termValue, predTrue, Identifiers(grammar));
        SetDepthKeepsLeaves(root.value, 0);
      }
    }

    /**
     * `synthesize(max_synth_iter, max_verify_checks)`. Each iteration
     * resets the per-iteration state, runs the term solver until the covers
     * cover every point, runs the unifier, and verifies the candidate on
     * sampled points; a counterexample is added to `pts`. A limit of `None`
     * or `0` means no limit. `fuel` bounds each loop that can run forever.
     */
    method Synthesize(maxSynthIter: Option<int>, maxVerifyChecks: int, fuel: nat) returns (outcome: Outcome)
      modifies this
      ensures outcome.OutOfFuel? ==> iteration == fuel || |terms| == fuel || SearchSpent(fuel)
      ensures iteration > 0 && !outcome.IterationLimit? ==> FromGrammar()
      ensures old(pts) <= pts
      ensures |old(pts)| + iteration - 1 <= |pts| <= |old(pts)| + iteration
      ensures forall p :: p in pts && p !in old(pts) ==> SampledBy(p, iteration, maxVerifyChecks)
      ensures !outcome.OutOfFuel? ==> |pts| == |old(pts)| + iteration - 1
      ensures maxSynthIter.Some? && maxSynthIter.value != 0 ==>
        iteration - 1 <= (if maxSynthIter.value > 0 then maxSynthIter.value else 0)
      ensures outcome.IterationLimit? ==>
        maxSynthIter.Some? && maxSynthIter.value != 0
        && iteration - 1 == (if maxSynthIter.value > 0 then maxSynthIter.value else 0)
      ensures outcome.Raised? ==> outcome.error == IndexError || outcome.error == AttributeError
      ensures outcome.Raised? ==>
        || (PredicateSet(grammar, terms).Failure? && outcome.error == IndexError)
        || (PredicateSet(grammar, terms).Success? && !Learnable(pts, terms, cover, preds, predTrue)
            && outcome.error == AttributeError)
      ensures outcome.Synthesized? ==>
        && outcome.tree.root.Some?
        && (forall p :: p in pts ==> spec.Holds(Candidate(outcome.tree, termValue, predTrue), p))
        && (forall k: nat :: k < maxVerifyChecks ==>
              spec.Holds(Candidate(outcome.tree, termValue, predTrue),
                         SamplePoint(IterationDraw(randomDraw, iteration), |Identifiers(grammar)|, k)))
    {
      iteration := 0;
      var rounds := fuel;
      while rounds > 0
        invariant old(pts) <= pts && |pts| == |old(pts)| + iteration && iteration + rounds == fuel
        invariant forall p :: p in pts && p !in old(pts) ==> SampledBy(p, iteration, maxVerifyChecks)
        invariant iteration > 0 ==> FromGrammar()
        invariant maxSynthIter.Some? && maxSynthIter.value != 0 ==>
          iteration <= (if maxSynthIter.value > 0 then maxSynthIter.value else 0)
        decreases rounds
      {
        rounds := rounds - 1;
        iteration := iteration + 1;
        if maxSynthIter.Some? && maxSynthIter.value != 0 && iteration > maxSynthIter.value {
          return IterationLimit;
        }
        ghost var before := pts;
        var stopped, sample := RunIteration(maxVerifyChecks, fuel);
        if stopped.Some? {
          return stopped.value;
        }
        SampledByStep(old(pts), before, pts, iteration, maxVerifyChecks, sample);
      }
      return OutOfFuel;
    }

    /**
     * One iteration of `synthesize` after the limit test: reset, term
     * solver, unifier and verifier. `None` means a counterexample joined
     * `pts` and the next iteration starts.
     */
    method RunIteration(maxVerifyChecks: int, fuel: nat) returns (stopped: Option<Outcome>, ghost sample: nat)
      modifies this
      ensures fresh(termsEnumerated) && FromGrammar()
      ensures iteration == old(iteration) && old(pts) <= pts
      ensures stopped.None? ==> |pts| == |old(pts)| + 1
      ensures stopped.None? ==>
        && sample < maxVerifyChecks && decisionTree.Some?
        && pts == old(pts) + {SamplePoint(IterationDraw(randomDraw, iteration), |Identifiers(grammar)|, sample)}
        && !spec.Holds(Candidate(decisionTree.value, termValue, predTrue),
                       SamplePoint(IterationDraw(randomDraw, iteration), |Identifiers(grammar)|, sample))
      ensures stopped == Some(OutOfFuel) ==> |terms| == fuel || SearchSpent(fuel)
      ensures stopped.Some? ==> pts == old(pts) && !stopped.value.IterationLimit?
      ensures stopped.Some? && stopped.value.Raised? ==>
        || (PredicateSet(grammar, terms).Failure? && stopped.value.error == IndexError)
        || (PredicateSet(grammar, terms).Success? && !Learnable(pts, terms, cover, preds, predTrue)
            && stopped.value.error == AttributeError)
      ensures stopped.Some? && stopped.value.Synthesized? ==>
        && stopped.value.tree.root.Some?
        && (forall p :: p in pts ==> spec.Holds(Candidate(stopped.value.tree, termValue, predTrue), p))
        && (forall k: nat :: k < maxVerifyChecks ==>
              spec.Holds(Candidate(stopped.value.tree, termValue, predTrue),
                         SamplePoint(IterationDraw(randomDraw, iteration), |Identifiers(grammar)|, k)))
    {
      stopped := SolveAndUnify(fuel);
      if stopped.Some? {
        return stopped, 0;
      }
      stopped, sample := VerifyTree(maxVerifyChecks);
    }

    /**
     * The first half of an iteration: reset the per-iteration state, run the
     * term solver until the covers span the points, then the unifier.
     * `None` means a tree sound on every known point was learnt.
     */
    method SolveAndUnify(fuel: nat) returns (stopped: Option<Outcome>)
      modifies this
      ensures fresh(termsEnumerated) && FromGrammar()
      ensures iteration == old(iteration) && pts == old(pts)
      ensures stopped.Some? ==> stopped.value.OutOfFuel? || stopped.value.Raised?
      ensures stopped == Some(OutOfFuel) ==> |terms| == fuel || SearchSpent(fuel)
      ensures stopped.Some? && stopped.value.Raised? ==>
        || (PredicateSet(grammar, terms).Failure? && stopped.value.error == IndexError)
        || (PredicateSet(grammar, terms).Success? && !Learnable(pts, terms, cover, preds, predTrue)
            && stopped.value.error == AttributeError)
      ensures stopped.None? ==>
        && decisionTree.Some? && decisionTree.value.root.Some?
        && forall p :: p in pts ==> spec.Holds(Candidate(decisionTree.value, termValue, predTrue), p)
    {
      Reset();
      var solved := SolveTerms(fuel);
      if !solved {
        return Some(OutOfFuel);
      }
      stopped := Unify(fuel);
    }

    /**
     * The verifier step of an iteration: sample the learnt tree's candidate;
     * without a counterexample the tree is the answer, otherwise the first
     * failing sample joins `pts`.
     */
    method VerifyTree(maxVerifyChecks: int) returns (stopped: Option<Outcome>, ghost sample: nat)
      requires decisionTree.Some?
      requires forall p :: p in pts ==> spec.Holds(Candidate(decisionTree.value, termValue, predTrue), p)
      modifies this`pts
      ensures stopped.None? ==> |pts| == |old(pts)| + 1
      ensures stopped.None? ==>
        && sample < maxVerifyChecks
        && pts == old(pts) + {SamplePoint(IterationDraw(randomDraw, iteration), |Identifiers(grammar)|, sample)}
        && !spec.Holds(Candidate(decisionTree.value, termValue, predTrue),
                       SamplePoint(IterationDraw(randomDraw, iteration), |Identifiers(grammar)|, sample))
      ensures stopped.Some? ==> pts == old(pts) && stopped == Some(Synthesized(decisionTree.value))
      ensures stopped.Some? ==>
        forall k: nat :: k < maxVerifyChecks ==>
          spec.Holds(Candidate(decisionTree.value, termValue, predTrue),
                     SamplePoint(IterationDraw(randomDraw, iteration), |Identifiers(grammar)|, k))
    {
      var tree := decisionTree.value;
      var candidate := Candidate(tree, termValue, predTrue);
      var draw, argsNum := IterationDraw(randomDraw, iteration), |Identifiers(grammar)|;
      var cexpt := VerifyCandidate(spec, candidate, argsNum, maxVerifyChecks, draw);
      if cexpt.None? {
        return Some(Synthesized(tree)), 0;
      }
      sample :| sample < maxVerifyChecks && cexpt.value == SamplePoint(draw, argsNum, sample)
                && !spec.Holds(candidate, cexpt.value);
      assert cexpt.value !in pts;
      pts := pts + {cexpt.value};
      return None, sample;
    }

    /** The per-iteration reset: no terms, aliases, predicates, covers or tree, and a fresh term enumerator. */
    method Reset()
      modifies this
      ensures SessionValid() && fresh(termsEnumerated) && FromGrammar()
      ensures termsEnumerated.position == 0 && termsEnumerated.yielded == []
      ensures terms == {} && equivalentTerms == map[] && preds == [] && cover == map[] && decisionTree.None?
      ensures pts == old(pts) && iteration == old(iteration)
    {
      terms := {};
      equivalentTerms := map[];
      preds := [];
      cover := map[];
      decisionTree := None;
      termsEnumerated := new TermEnumerator(grammar);
    }

    /** The term solver: keep the next distinct term until the covers cover every point. */
    method SolveTerms(fuel: nat) returns (solved: bool)
      requires SessionValid()
      modifies this, termsEnumerated
      ensures SessionValid() && (solved <==> CoverUnion(cover) == pts)
      ensures old(terms) <= terms
      ensures !solved ==> |terms| == |old(terms)| + fuel || SearchSpent(fuel)
      ensures termsEnumerated == old(termsEnumerated)
      ensures pts == old(pts) && iteration == old(iteration) && decisionTree == old(decisionTree)
    {
      var steps := fuel;
      while CoverUnion(cover) != pts
        invariant SessionValid() && termsEnumerated == old(termsEnumerated)
        invariant pts == old(pts) && iteration == old(iteration) && decisionTree == old(decisionTree)
        invariant old(terms) <= terms && |terms| + steps == |old(terms)| + fuel
        decreases steps
      {
        if steps == 0 {
          return false;
        }
        steps := steps - 1;
        var next, drawn := NextDistinctTerm(fuel);
        if next.Diverges? {
          DivergedSearchSpent(fuel, drawn);
          return false;
        }
        assert next.Found?;
        ghost var before := terms;
        KeepTerm(next.term);
        assert |terms| == |before| + 1;
      }
      return true;
    }

    /** `self.terms.add(term)` for a term `_next_distinct_term` returned. */
    method KeepTerm(t: string)
      requires SessionValid()
      requires t !in terms && t in cover && cover[t] == TermCover(t)
      requires pts != {} ==> cover[t] != {} && forall e :: e in terms ==> cover[e] != cover[t]
      requires pts == {} ==> terms == {}
      modifies this`terms
      ensures SessionValid() && terms == old(terms) + {t}
      ensures pts == old(pts) && iteration == old(iteration) && decisionTree == old(decisionTree)
      ensures cover == old(cover) && preds == old(preds) && termsEnumerated == old(termsEnumerated)
    {
      terms := terms + {t};
    }

    /** A search that diverged leaves its budget spent: its draws are the generator's latest yields. */
    lemma DivergedSearchSpent(fuel: nat, drawn: seq<string>)
      requires |drawn| <= |termsEnumerated.yielded|
      requires termsEnumerated.yielded[|termsEnumerated.yielded| - |drawn|..] == drawn
      requires |drawn| == fuel || termsEnumerated.Exhausted()
      requires forall c :: c in drawn ==> PassedOver(TermCover(c), pts, terms, cover)
      ensures SearchSpent(fuel)
    {
    }

    /** The unifier's `term = self._next_distinct_term()` and `if term: self.terms.add(term)`. */
    method AddDistinctTerm(fuel: nat) returns (next: NextTerm)
      requires SessionValid()
      modifies this, termsEnumerated
      ensures SessionValid() && termsEnumerated == old(termsEnumerated)
      ensures pts == old(pts) && iteration == old(iteration) && decisionTree == old(decisionTree) && preds == old(preds)
      ensures next.Found? && next.term != "" ==> next.term !in old(terms) && terms == old(terms) + {next.term}
      ensures !(next.Found? && next.term != "") ==> terms == old(terms)
      ensures old(termsEnumerated.yielded) <= termsEnumerated.yielded
      ensures next.Diverges? ==> SearchSpent(fuel)
    {
      ghost var drawn;
      next, drawn := NextDistinctTerm(fuel);
      if next.Diverges? {
        DivergedSearchSpent(fuel, drawn);
      }
      if next.Found? && next.term != "" {
        KeepTerm(next.term);
      }
    }

    /**
     * The unifier: add one more distinct term, enumerate the predicates over
     * the kept terms, and learn a tree. Learning raises instead of returning
     * `None`, so the `while self.decision_tree is None` loop runs once.
     * `None` means a tree was learnt; otherwise the run ends with `stopped`.
     */
    method Unify(fuel: nat) returns (stopped: Option<Outcome>)
      requires SessionValid() && decisionTree.None?
      modifies this, termsEnumerated
      ensures SessionValid() && termsEnumerated == old(termsEnumerated)
      ensures pts == old(pts) && iteration == old(iteration)
      ensures stopped.Some? ==> stopped.value.OutOfFuel? || stopped.value.Raised?
      ensures stopped == Some(OutOfFuel) ==> SearchSpent(fuel)
      ensures stopped.Some? && stopped.value.Raised? ==>
        || (PredicateSet(grammar, terms).Failure? && stopped.value.error == IndexError)
        || (PredicateSet(grammar, terms).Success? && !Learnable(pts, terms, cover, preds, predTrue)
            && stopped.value.error == AttributeError)
      ensures stopped.Some? && stopped.value.Raised? ==>
        stopped.value.error == IndexError || stopped.value.error == AttributeError
      ensures stopped.None? ==>
        && decisionTree.Some? && decisionTree.value.root.Some?
        && forall p :: p in pts ==> spec.Holds(Candidate(decisionTree.value, termValue, predTrue), p)
    {
      while decisionTree.None?
        invariant SessionValid() && termsEnumerated == old(termsEnumerated)
        invariant pts == old(pts) && iteration == old(iteration)
        invariant decisionTree.Some? ==>
          && decisionTree.value.root.Some?
          && forall p :: p in pts ==> spec.Holds(Candidate(decisionTree.value, termValue, predTrue), p)
        decreases if decisionTree.None? then 1 else 0
      {
        var next := AddDistinctTerm(fuel);
        if next.Diverges? {
          return Some(OutOfFuel);
        }
        var learned := BuildTree();
        if learned.Failure? {
          return Some(Raised(learned.error));
        }
        decisionTree := Some(learned.value);
      }
      return None;
    }

    /** `self.preds = enumerate_predicates(self.terms)`, then `_learn_decision_tree()`. */
    method BuildTree() returns (r: Result<DecisionTree, Error>)
      requires SessionValid()
      modifies this
      ensures SessionValid()
      ensures pts == old(pts) && terms == old(terms) && cover == old(cover) && iteration == old(iteration)
      ensures termsEnumerated == old(termsEnumerated) && decisionTree == old(decisionTree)
      ensures r.Failure? ==> r.error == IndexError || r.error == AttributeError
      ensures PredicateSet(grammar, terms).Failure? ==> r == Failure(IndexError) && preds == old(preds)
      ensures PredicateSet(grammar, terms).Success? ==>
        && (forall p :: p in preds <==> p in PredicateSet(grammar, terms).value)
        && (forall i, j :: 0 <= i < j < |preds| ==> preds[i] != preds[j])
        && SortedBy(preds, Descending())
        && (r.Success? <==> Learnable(pts, terms, cover, preds, predTrue))
        && (r.Failure? ==> r.error == AttributeError)
      ensures r.Success? ==>
        && r.value.root.Some?
        && forall p :: p in pts ==> spec.Holds(Candidate(r.value, termValue, predTrue), p)
    {
      var enumerated := EnumeratePredicates(grammar, terms);
      if enumerated.Failure? {
        return Failure(enumerated.error);
      }
      preds := enumerated.value;
      r := LearnDecisionTree();
    }
  }

  /** Depth assignment keeps the leaf values. */
  lemma {:induction false} SetDepthKeepsLeaves(n: Node, d: nat)
    requires SetDepth(n, d).Success?
    ensures LeafValues(SetDepth(n, d).value) == LeafValues(n)
    decreases n
  {
    match n
    case Leaf(_, _) =>
    case Internal(_, t, f, _) =>
      SetDepthKeepsLeaves(t.value, d + 1);
      SetDepthKeepsLeaves(f.value, d + 1);
  }
}
