/**
 * The draft synthesiser `Synthesis` of works.py: terms are kept when they
 * match at least one example, and decision trees of one predicate over two
 * terms are tried until one is correct on every example.
 */
module Works {
  import opened Wrappers
  import opened Triples

  /** A tree as `decision_tree_learning` builds it: a term at a leaf, or a predicate with its `True` and `False` branches. */
  datatype Tree = Leaf(term: string) | Node(root: string, onTrue: Tree, onFalse: Tree)

  /** `{"root": pred, "branches": {True: term1, False: term2}}`. */
  function Stump(pred: string, term1: string, term2: string): Tree {
    Node(pred, Leaf(term1), Leaf(term2))
  }

  function Leaves(tree: Tree): set<string> {
    match tree
    case Leaf(t) => {t}
    case Node(_, a, b) => Leaves(a) + Leaves(b)
  }

  /**
   * `evaluate_tree(tree, point)`: the term at the leaf the predicates lead
   * to, evaluated at the point; an evaluation that raises is a failure.
   */
  function EvaluateTree(tree: Tree, pt: Triple, termEval: TermEval, predEval: PredEval): (r: Result<int, Error>)
    ensures r.Success? ==> exists t :: t in Leaves(tree) && termEval(t, pt.x, pt.y) == r
  {
    match tree
    case Leaf(t) => termEval(t, pt.x, pt.y)
    case Node(p, a, b) =>
      match predEval(p, pt.x, pt.y)
      case Failure(e) => Failure(e)
      case Success(holds) =>
        if holds then EvaluateTree(a, pt, termEval, predEval) else EvaluateTree(b, pt, termEval, predEval)
  }

  /** A stump picks its first term where the predicate holds and its second where it does not. */
  lemma StumpEvaluation(pred: string, term1: string, term2: string, pt: Triple, termEval: TermEval, predEval: PredEval)
    ensures predEval(pred, pt.x, pt.y) == Success(true) ==>
      EvaluateTree(Stump(pred, term1, term2), pt, termEval, predEval) == termEval(term1, pt.x, pt.y)
    ensures predEval(pred, pt.x, pt.y) == Success(false) ==>
      EvaluateTree(Stump(pred, term1, term2), pt, termEval, predEval) == termEval(term2, pt.x, pt.y)
    ensures predEval(pred, pt.x, pt.y).Failure? ==>
      EvaluateTree(Stump(pred, term1, term2), pt, termEval, predEval) == Failure(predEval(pred, pt.x, pt.y).error)
  {
  }

  class Synthesis {
    const grammarTerms: seq<string>
    const grammarPredicates: seq<string>
    const spec: seq<Triple>
    const termEval: TermEval
    const predEval: PredEval
    var points: set<Triple>
    var terms: set<string>
    var preds: set<string>
    var cover: map<string, set<Triple>>

    constructor(grammarTerms: seq<string>, grammarPredicates: seq<string>, spec: seq<Triple>,
                termEval: TermEval, predEval: PredEval)
      ensures this.grammarTerms == grammarTerms && this.grammarPredicates == grammarPredicates
      ensures this.spec == spec && this.termEval == termEval && this.predEval == predEval
      ensures points == {} && terms == {} && preds == {} && cover == map[]
    {
      this.grammarTerms := grammarTerms;
      this.grammarPredicates := grammarPredicates;
      this.spec := spec;
      this.termEval := termEval;
      this.predEval := predEval;
      points := {};
      terms := {};
      preds := {};
      cover := map[];
    }

    /** `verify_point(expr, point)`: the term evaluates, without raising, to the expected output. */
    predicate VerifyPoint(expr: string, pt: Triple): (b: bool)
      ensures termEval(expr, pt.x, pt.y).Failure? ==> !b
      ensures termEval(expr, pt.x, pt.y).Success? ==> (b <==> termEval(expr, pt.x, pt.y).value == pt.expected)
    {
      termEval(expr, pt.x, pt.y) == Success(pt.expected)
    }

    /** The current points a term matches. */
    function CoveredPoints(t: string): set<Triple>
      reads this
    {
      set p | p in points && VerifyPoint(t, p)
    }

    /** The tree evaluates, without raising, to the expected output. */
    predicate Passes(tree: Tree, pt: Triple) {
      EvaluateTree(tree, pt, termEval, predEval) == Success(pt.expected)
    }

    /** The tree passes on every point. */
    predicate Correct(tree: Tree)
      reads this
    {
      forall p :: p in points ==> Passes(tree, p)
    }

    /** The inner loop of `bottom_up_enumerate_terms` for one term: its cover gains every point it matches. */
    method CoverTerm(t: string)
      modifies this
      ensures points == old(points) && terms == old(terms) && preds == old(preds)
      ensures cover == old(cover)[t := (if t in old(cover) then old(cover)[t] else {}) + CoveredPoints(t)]
    {
      if t !in cover {
        cover := cover[t := {}];
      }
      ghost var before := cover[t];
      assert before == (if t in old(cover) then old(cover)[t] else {});
      var remaining := points;
      while remaining != {}
        invariant points == old(points) && terms == old(terms) && preds == old(preds)
        invariant remaining <= points && t in cover && cover == old(cover)[t := cover[t]]
        invariant cover[t] == before + (set p | p in points - remaining && VerifyPoint(t, p))
        decreases remaining
      {
        var pt :| pt in remaining;
        if VerifyPoint(t, pt) {
          cover := cover[t := cover[t] + {pt}];
        }
        remaining := remaining - {pt};
      }
      assert points - remaining == points;
    }

    /** `c` is `c0` after the covers of the terms `done` have been grown. */
    ghost predicate CoversGrown(c: map<string, set<Triple>>, c0: map<string, set<Triple>>, done: seq<string>)
      reads this
    {
      && c.Keys == c0.Keys + (set t | t in done)
      && forall t :: t in c ==> c[t] == (if t in c0 then c0[t] else {}) + (if t in done then CoveredPoints(t) else {})
    }

    /** Growing the cover of one more term keeps `CoversGrown`, and the terms with a non-empty cover. */
    lemma CoversGrownStep(c0: map<string, set<Triple>>, c1: map<string, set<Triple>>, done: seq<string>, t: string,
                          newTerms: set<string>)
      requires CoversGrown(c1, c0, done)
      requires newTerms == set u | u in done && c1[u] != {}
      ensures var c2 := c1[t := (if t in c1 then c1[t] else {}) + CoveredPoints(t)];
        && CoversGrown(c2, c0, done + [t])
        && (set u | u in done + [t] && c2[u] != {}) == newTerms + (if c2[t] != {} then {t} else {})
    {
      var c2 := c1[t := (if t in c1 then c1[t] else {}) + CoveredPoints(t)];
      GrownCovers(c0, c1, done, t);
      forall u | u in done ensures c2[u] != {} <==> c1[u] != {} {
        if u == t {
          assert c1[u] == (if u in c0 then c0[u] else {}) + CoveredPoints(u);
        }
      }
    }

    lemma GrownCovers(c0: map<string, set<Triple>>, c1: map<string, set<Triple>>, done: seq<string>, t: string)
      requires CoversGrown(c1, c0, done)
      ensures CoversGrown(c1[t := (if t in c1 then c1[t] else {}) + CoveredPoints(t)], c0, done + [t])
    {
    }

    /**
     * `bottom_up_enumerate_terms()`: every grammar term gets a cover (only
     * ever grown, by every point it matches), and the terms with a
     * non-empty cover join `terms`; no term is removed.
     */
    method BottomUpEnumerateTerms()
      modifies this
      ensures points == old(points) && preds == old(preds)
      ensures CoversGrown(cover, old(cover), grammarTerms)
      ensures terms == old(terms) + (set t | t in grammarTerms && cover[t] != {})
    {
      var newTerms: set<string> := {};
      for i := 0 to |grammarTerms|
        invariant points == old(points) && preds == old(preds) && terms == old(terms)
        invariant CoversGrown(cover, old(cover), grammarTerms[..i])
        invariant newTerms == set t | t in grammarTerms[..i] && cover[t] != {}
      {
        var t := grammarTerms[i];
        CoversGrownStep(old(cover), cover, grammarTerms[..i], t, newTerms);
        CoverTerm(t);
        if cover[t] != {} {
          newTerms := newTerms + {t};
        }
        assert grammarTerms[..i + 1] == grammarTerms[..i] + [t];
      }
      assert grammarTerms[..|grammarTerms|] == grammarTerms;
      terms := terms + newTerms;
    }

    /** `bottom_up_enumerate_preds()`: every grammar predicate joins `preds`. */
    method BottomUpEnumeratePreds()
      modifies this
      ensures preds == old(preds) + (set p | p in grammarPredicates)
      ensures points == old(points) && terms == old(terms) && cover == old(cover)
    {
      preds := preds + (set p | p in grammarPredicates);
    }

    /**
     * `verify(tree)`: `(True, None)` exactly when the tree passes on every
     * point; otherwise `(False, pt)` for a point where it fails or raises.
     */
    method Verify(tree: Tree) returns (result: bool, cex: Option<Triple>)
      ensures result <==> Correct(tree)
      ensures result ==> cex.None?
      ensures !result ==> cex.Some? && cex.value in points && !Passes(tree, cex.value)
    {
      var remaining := points;
      while remaining != {}
        invariant remaining <= points
        invariant forall p :: p in points - remaining ==> Passes(tree, p)
        decreases remaining
      {
        var pt :| pt in remaining;
        var value := EvaluateTree(tree, pt, termEval, predEval);
        if value.Failure? || value.value != pt.expected {
          return false, Some(pt);
        }
        remaining := remaining - {pt};
      }
      return true, None;
    }

    /**
     * `decision_tree_learning()`: a stump over a kept predicate and two kept
     * terms that is correct on every point, or `None` exactly when there is
     * none (in particular when there are no predicates or no terms).
     */
    method DecisionTreeLearning() returns (tree: Option<Tree>)
      ensures tree.Some? ==>
        exists p, t1, t2 :: p in preds && t1 in terms && t2 in terms && tree.value == Stump(p, t1, t2)
      ensures tree.Some? ==> Correct(tree.value)
      ensures tree.None? <==>
        forall p, t1, t2 :: p in preds && t1 in terms && t2 in terms ==> !Correct(Stump(p, t1, t2))
    {
      if preds == {} || terms == {} {
        return None;
      }
      var predsLeft := preds;
      while predsLeft != {}
        invariant predsLeft <= preds
        invariant forall p, t1, t2 :: p in preds - predsLeft && t1 in terms && t2 in terms ==> !Correct(Stump(p, t1, t2))
        decreases predsLeft
      {
        var pred :| pred in predsLeft;
        tree := TryPredicate(pred);
        if tree.Some? {
          return;
        }
        predsLeft := predsLeft - {pred};
      }
      return None;
    }

    /** The two inner loops of `decision_tree_learning` for one predicate. */
    method TryPredicate(pred: string) returns (tree: Option<Tree>)
      ensures tree.Some? ==> exists t1, t2 :: t1 in terms && t2 in terms && tree.value == Stump(pred, t1, t2)
      ensures tree.Some? ==> Correct(tree.value)
      ensures tree.None? ==> forall t1, t2 :: t1 in terms && t2 in terms ==> !Correct(Stump(pred, t1, t2))
    {
      var firstLeft := terms;
      while firstLeft != {}
        invariant firstLeft <= terms
        invariant forall t1, t2 :: t1 in terms - firstLeft && t2 in terms ==> !Correct(Stump(pred, t1, t2))
        decreases firstLeft
      {
        var term1 :| term1 in firstLeft;
        var secondLeft := terms;
        while secondLeft != {}
          invariant secondLeft <= terms
          invariant forall t2 :: t2 in terms - secondLeft ==> !Correct(Stump(pred, term1, t2))
          decreases secondLeft
        {
          var term2 :| term2 in secondLeft;
          var candidate := Stump(pred, term1, term2);
          var result, cex := Verify(candidate);
          if result {
            return Some(candidate);
          }
          secondLeft := secondLeft - {term2};
        }
        firstLeft := firstLeft - {term1};
      }
      return None;
    }

    /** `add_counterexample(cex)`. */
    method AddCounterexample(cex: Triple)
      modifies this
      ensures points == old(points) + {cex}
      ensures terms == old(terms) && preds == old(preds) && cover == old(cover)
    {
      points := points + {cex};
    }

    /**
     * `synthesize(max_iterations)`: the examples join the points; then each
     * iteration enumerates terms and predicates and learns a tree, raising
     * when there is none. Learning only returns a tree that `verify`
     * accepts on the same points, so the first iteration always ends the
     * run: the counterexample branch (works.py:89) and every later
     * iteration are never reached, and the loop is its first pass.
     */
    method Synthesize(maxIterations: int) returns (r: Result<Option<Tree>, Error>)
      modifies this
      ensures points == old(points) + (set s | s in spec)
      ensures 1 <= maxIterations ==>
        && preds == old(preds) + (set p | p in grammarPredicates)
        && CoversGrown(cover, old(cover), grammarTerms)
        && terms == old(terms) + (set t | t in grammarTerms && cover[t] != {})
      ensures maxIterations < 1 ==> terms == old(terms) && preds == old(preds) && cover == old(cover)
      ensures r == Success(None) <==> maxIterations < 1
      ensures r.Failure? ==> r.error == SynthesisFailed
      ensures r.Failure? ==>
        forall p, t1, t2 :: p in preds && t1 in terms && t2 in terms ==> !Correct(Stump(p, t1, t2))
      ensures r.Success? && r.value.Some? ==>
        && (exists p, t1, t2 :: p in preds && t1 in terms && t2 in terms && r.value.value == Stump(p, t1, t2))
        && Correct(r.value.value)
        && forall i :: 0 <= i < |spec| ==> Passes(r.value.value, spec[i])
    {
      points := points + (set s | s in spec);
      if 1 <= maxIterations {
        BottomUpEnumerateTerms();
        BottomUpEnumeratePreds();
        var tree := DecisionTreeLearning();
        if tree.None? {
          return Failure(SynthesisFailed);
        }
        var result, cex := Verify(tree.value);
        assert result;
        return Success(tree);
      }
      return Success(None);
    }
  }
}
