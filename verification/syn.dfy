/**
 * The draft synthesiser of syn.py: terms and predicates are filtered
 * against the points seen so far, the first kept term is the candidate, and
 * a candidate that fails on an example adds that example to the points.
 */
module Syn {
  import opened Wrappers
  import opened Triples

  /** The term evaluates to the expected output at some point; points where it raises are skipped. */
  predicate ValidOn(code: string, pts: seq<Triple>, eval: TermEval) {
    exists i :: 0 <= i < |pts| && eval(code, pts[i].x, pts[i].y) == Success(pts[i].expected)
  }

  /** The grammar terms, in grammar order, that are valid on the points. */
  function KeptTerms(grammar: seq<string>, pts: seq<Triple>, eval: TermEval): (r: seq<string>)
    ensures forall t :: t in r <==> t in grammar && ValidOn(t, pts, eval)
    ensures |r| <= |grammar|
  {
    if grammar == [] then []
    else
      var rest := KeptTerms(grammar[..|grammar| - 1], pts, eval);
      assert grammar == grammar[..|grammar| - 1] + [grammar[|grammar| - 1]];
      if ValidOn(grammar[|grammar| - 1], pts, eval) then rest + [grammar[|grammar| - 1]] else rest
  }

  /** With no points no term is valid, so no term is kept. */
  lemma NoPointsKeepNoTerms(grammar: seq<string>, eval: TermEval)
    ensures KeptTerms(grammar, [], eval) == []
  {
  }

  /**
   * `bottom_up_enumerate_terms(grammar, pts)`: the terms that evaluate to
   * the expected output at one point or more, in grammar order.
   */
  method BottomUpEnumerateTerms(grammar: seq<string>, pts: seq<Triple>, eval: TermEval) returns (terms: seq<string>)
    ensures terms == KeptTerms(grammar, pts, eval)
  {
    terms := [];
    for i := 0 to |grammar|
      invariant terms == KeptTerms(grammar[..i], pts, eval)
    {
      var term := grammar[i];
      var isValid := false;
      for j := 0 to |pts|
        invariant isValid <==> exists k :: 0 <= k < j && eval(term, pts[k].x, pts[k].y) == Success(pts[k].expected)
      {
        var result := eval(term, pts[j].x, pts[j].y);
        if result.Failure? {
          continue;
        }
        if result.value == pts[j].expected {
          isValid := true;
        }
      }
      assert grammar[..i + 1][..i] == grammar[..i];
      if isValid {
        terms := terms + [term];
      }
    }
    assert grammar[..|grammar|] == grammar;
  }

  /**
   * `any(predicate.evaluate(x, y) for x, y, _ in pts)`: true at the first
   * point where the predicate holds; an evaluation that raises before that
   * point propagates.
   */
  function AnyHolds(pred: string, pts: seq<Triple>, predEval: PredEval): (r: Result<bool, Error>)
    ensures r == Success(true) <==>
      exists i :: 0 <= i < |pts| && predEval(pred, pts[i].x, pts[i].y) == Success(true)
        && forall j :: 0 <= j < i ==> predEval(pred, pts[j].x, pts[j].y) == Success(false)
    ensures r == Success(false) <==> forall i :: 0 <= i < |pts| ==> predEval(pred, pts[i].x, pts[i].y) == Success(false)
    ensures r.Failure? ==>
      exists i :: 0 <= i < |pts| && predEval(pred, pts[i].x, pts[i].y) == Failure(r.error)
        && forall j :: 0 <= j < i ==> predEval(pred, pts[j].x, pts[j].y) == Success(false)
  {
    if pts == [] then Success(false)
    else
      match predEval(pred, pts[0].x, pts[0].y)
      case Failure(e) => Failure(e)
      case Success(holds) =>
        if holds then Success(true)
        else
          var rest := AnyHolds(pred, pts[1..], predEval);
          assert forall i :: 1 <= i < |pts| ==> pts[1..][i - 1] == pts[i];
          rest
  }

  /** `n` copies of `s`. */
  function Repeat(s: string, n: nat): (r: seq<string>)
    ensures |r| == n && forall i :: 0 <= i < n ==> r[i] == s
  {
    if n == 0 then [] else Repeat(s, n - 1) + [s]
  }

  /**
   * What `bottom_up_enumerate_preds` returns: every predicate that holds at
   * some point, once per point, in grammar order; the first evaluation that
   * raises propagates. With no points nothing is evaluated.
   */
  function EnumeratedPreds(predGrammar: seq<string>, pts: seq<Triple>, predEval: PredEval): Result<seq<string>, Error> {
    if predGrammar == [] then Success([])
    else
      var init := predGrammar[..|predGrammar| - 1];
      var last := predGrammar[|predGrammar| - 1];
      match EnumeratedPreds(init, pts, predEval)
      case Failure(e) => Failure(e)
      case Success(prefix) =>
        if pts == [] then Success(prefix)
        else
          match AnyHolds(last, pts, predEval)
          case Failure(e) => Failure(e)
          case Success(holds) => Success(prefix + if holds then Repeat(last, |pts|) else [])
  }

  /**
   * A predicate of the grammar appears once per point for each time the
   * grammar lists it, when it holds at some point, and not at all otherwise.
   */
  lemma {:induction false} EnumeratedPredsCounts(predGrammar: seq<string>, pts: seq<Triple>, predEval: PredEval, p: string)
    requires EnumeratedPreds(predGrammar, pts, predEval).Success?
    ensures multiset(EnumeratedPreds(predGrammar, pts, predEval).value)[p] ==
      if pts != [] && AnyHolds(p, pts, predEval) == Success(true) then |pts| * multiset(predGrammar)[p] else 0
  {
    if predGrammar != [] {
      var init := predGrammar[..|predGrammar| - 1];
      var last := predGrammar[|predGrammar| - 1];
      assert predGrammar == init + [last];
      EnumeratedPredsCounts(init, pts, predEval, p);
      if pts != [] {
        var prefix := EnumeratedPreds(init, pts, predEval).value;
        var holds := AnyHolds(last, pts, predEval).value;
        assert EnumeratedPreds(predGrammar, pts, predEval).value == prefix + if holds then Repeat(last, |pts|) else [];
        CountsStep(init, last, prefix, holds, |pts|, p, AnyHolds(p, pts, predEval) == Success(true));
      }
    }
  }

  /** The enumeration raises only when some grammar predicate raises at one of at least one point. */
  lemma {:induction false} EnumeratedPredsFailure(predGrammar: seq<string>, pts: seq<Triple>, predEval: PredEval)
    ensures EnumeratedPreds(predGrammar, pts, predEval).Failure? ==>
      && pts != []
      && exists i :: 0 <= i < |predGrammar| &&
           AnyHolds(predGrammar[i], pts, predEval) == Failure(EnumeratedPreds(predGrammar, pts, predEval).error)
  {
    if predGrammar != [] {
      var init := predGrammar[..|predGrammar| - 1];
      EnumeratedPredsFailure(init, pts, predEval);
      if EnumeratedPreds(init, pts, predEval).Failure? {
        var i :| 0 <= i < |init| && AnyHolds(init[i], pts, predEval) == Failure(EnumeratedPreds(init, pts, predEval).error);
        assert predGrammar[i] == init[i];
      }
    }
  }

  /** The first predicate whose evaluation raises decides the outcome: later predicates do not matter. */
  lemma {:induction false} EnumeratedPredsFailureFinal(init: seq<string>, rest: seq<string>, pts: seq<Triple>, predEval: PredEval)
    requires EnumeratedPreds(init, pts, predEval).Failure?
    ensures EnumeratedPreds(init + rest, pts, predEval) == EnumeratedPreds(init, pts, predEval)
    decreases |rest|
  {
    if rest == [] {
      assert init + rest == init;
    } else {
      var front := rest[..|rest| - 1];
      var xs := init + rest;
      assert xs[..|xs| - 1] == init + front;
      EnumeratedPredsFailureFinal(init, front, pts, predEval);
    }
  }

  /** One predicate more: the step of `EnumeratedPredsCounts`. */
  lemma CountsStep(init: seq<string>, last: string, prefix: seq<string>, holds: bool, n: nat, p: string, pHolds: bool)
    requires multiset(prefix)[p] == if pHolds then n * multiset(init)[p] else 0
    requires p == last ==> pHolds == holds
    ensures multiset(prefix + if holds then Repeat(last, n) else [])[p] == if pHolds then n * multiset(init + [last])[p] else 0
  {
    var m := multiset(init)[p];
    var added := if holds then Repeat(last, n) else [];
    assert multiset(init + [last])[p] == m + if p == last then 1 else 0;
    assert multiset(prefix + added)[p] == multiset(prefix)[p] + multiset(added)[p];
    RepeatCounts(last, n);
    if p == last && holds {
      assert multiset(added)[p] == n;
      MulSucc(n, m);
    } else {
      assert multiset(added)[p] == 0;
    }
  }

  lemma MulSucc(n: nat, m: nat)
    ensures n * (m + 1) == n * m + n
  {
  }

  lemma {:induction false} RepeatCounts(s: string, n: nat)
    ensures forall p :: multiset(Repeat(s, n))[p] == if p == s then n else 0
  {
    if n > 0 {
      RepeatCounts(s, n - 1);
      assert Repeat(s, n) == Repeat(s, n - 1) + [s];
    }
  }

  /**
   * `bottom_up_enumerate_preds(pred_grammar, pts)`: for each predicate and
   * each point, the predicate is appended when it holds at some point.
   */
  method BottomUpEnumeratePreds(predGrammar: seq<string>, pts: seq<Triple>, predEval: PredEval)
    returns (r: Result<seq<string>, Error>)
    ensures r == EnumeratedPreds(predGrammar, pts, predEval)
  {
    var predicates: seq<string> := [];
    for i := 0 to |predGrammar|
      invariant EnumeratedPreds(predGrammar[..i], pts, predEval) == Success(predicates)
    {
      var pred := predGrammar[i];
      assert predGrammar[..i + 1][..i] == predGrammar[..i];
      ghost var before := predicates;
      for j := 0 to |pts|
        invariant j > 0 ==> AnyHolds(pred, pts, predEval).Success?
        invariant predicates == before + (if j > 0 && AnyHolds(pred, pts, predEval) == Success(true) then Repeat(pred, j) else [])
      {
        var holds := AnyHolds(pred, pts, predEval);
        if holds.Failure? {
          assert EnumeratedPreds(predGrammar[..i + 1], pts, predEval) == Failure(holds.error);
          EnumeratedPredsFailureFinal(predGrammar[..i + 1], predGrammar[i + 1..], pts, predEval);
          assert predGrammar[..i + 1] + predGrammar[i + 1..] == predGrammar;
          return Failure(holds.error);
        }
        if holds.value {
          predicates := predicates + [pred];
        }
      }
      assert predGrammar[..i + 1][..i] == predGrammar[..i] && predGrammar[..i + 1][i] == pred;
    }
    assert predGrammar[..|predGrammar|] == predGrammar;
    return Success(predicates);
  }

  /** `learn_decision_tree(terms, preds, pts)` (the later definition): the first term, if any. */
  function LearnDecisionTree(terms: seq<string>, preds: seq<string>, pts: seq<Triple>): (dt: Option<string>)
    ensures dt.None? <==> terms == []
    ensures dt.Some? ==> dt.value in terms
  {
    if terms == [] then None else Some(terms[0])
  }

  /** `create_expression_from_tree(dt)`: the tree's code, or `"0"` for no tree. */
  function CreateExpressionFromTree(dt: Option<string>): (code: string)
    ensures dt.Some? ==> code == dt.value
    ensures dt.None? ==> code == "0"
  {
    match dt
    case None => "0"
    case Some(c) => c
  }

  /** `verify`'s `(bool, counterexample)` pair. */
  datatype Verdict = Verdict(isCorrect: bool, cex: Option<Triple>)

  predicate Matches(code: string, t: Triple, eval: TermEval) {
    eval(code, t.x, t.y) == Success(t.expected)
  }

  /**
   * `verify(candidate_expr, spec)`: `(True, None)` exactly when the
   * candidate matches every triple; otherwise the first triple where it
   * evaluates to another value. An evaluation that raises before any
   * mismatch propagates.
   */
  function Verify(code: string, spec: seq<Triple>, eval: TermEval): (r: Result<Verdict, Error>)
    ensures r == Success(Verdict(true, None)) <==> forall i :: 0 <= i < |spec| ==> Matches(code, spec[i], eval)
    ensures r.Success? ==> r.value.isCorrect == r.value.cex.None?
    ensures r.Success? && !r.value.isCorrect ==>
      exists i :: 0 <= i < |spec| && spec[i] == r.value.cex.value
        && eval(code, spec[i].x, spec[i].y).Success? && !Matches(code, spec[i], eval)
        && forall j :: 0 <= j < i ==> Matches(code, spec[j], eval)
    ensures r.Failure? ==>
      exists i :: 0 <= i < |spec| && eval(code, spec[i].x, spec[i].y) == Failure(r.error)
        && forall j :: 0 <= j < i ==> Matches(code, spec[j], eval)
  {
    if spec == [] then Success(Verdict(true, None))
    else
      match eval(code, spec[0].x, spec[0].y)
      case Failure(e) => Failure(e)
      case Success(v) =>
        if v != spec[0].expected then Success(Verdict(false, Some(spec[0])))
        else
          assert forall i :: 1 <= i < |spec| ==> spec[1..][i - 1] == spec[i];
          Verify(code, spec[1..], eval)
  }

  /**
   * What `synthesize` returns, and the points it holds then, when it enters
   * its loop having done `iterations` iterations and kept `points`.
   */
  function SynthesisRun(grammarTerms: seq<string>, grammarPreds: seq<string>, spec: seq<Triple>, maxIterations: int,
                        iterations: int, points: seq<Triple>, eval: TermEval, predEval: PredEval)
    : (Result<Option<string>, Error>, seq<Triple>)
    decreases maxIterations - iterations
  {
    if iterations >= maxIterations then (Success(None), points)
    else
      var terms := KeptTerms(grammarTerms, points, eval);
      if terms == [] then (Success(None), points)
      else
        match EnumeratedPreds(grammarPreds, points, predEval)
        case Failure(e) => (Failure(e), points)
        case Success(preds) =>
          var candidate := CreateExpressionFromTree(LearnDecisionTree(terms, preds, points));
          match Verify(candidate, spec, eval)
          case Failure(e) => (Failure(e), points)
          case Success(v) =>
            if v.isCorrect then (Success(Some(candidate)), points)
            else if v.cex.value in points then (Success(None), points)
            else SynthesisRun(grammarTerms, grammarPreds, spec, maxIterations, iterations + 1, points + [v.cex.value], eval, predEval)
  }

  /**
   * `synthesize` can never succeed: it starts with no points, no term is
   * kept on no points, so the first iteration returns `None` (and a limit
   * below 1 returns `None` at once), with no point kept.
   */
  lemma {:induction false} RunReturnsNone(grammarTerms: seq<string>, grammarPreds: seq<string>, spec: seq<Triple>,
                                          maxIterations: int, eval: TermEval, predEval: PredEval)
    ensures SynthesisRun(grammarTerms, grammarPreds, spec, maxIterations, 0, [], eval, predEval) == (Success(None), [])
  {
    NoPointsKeepNoTerms(grammarTerms, eval);
  }

  /**
   * `synthesize(grammar_terms, grammar_preds, spec, max_iterations)`. The
   * ghost `pts` is the point list when the run ends: distinct examples,
   * since a repeated counterexample stops the run, one per iteration that
   * did not return. A returned candidate is a grammar term that matches
   * every example, and needs at least one point to have been kept. The
   * run is `SynthesisRun` from the first iteration, which always returns
   * `None` (`RunReturnsNone`).
   */
  method Synthesize(grammarTerms: seq<string>, grammarPreds: seq<string>, spec: seq<Triple>, maxIterations: int,
                    eval: TermEval, predEval: PredEval)
    returns (r: Result<Option<string>, Error>, ghost pts: seq<Triple>)
    ensures r.Success? && r.value.Some? ==>
      && Verify(r.value.value, spec, eval) == Success(Verdict(true, None))
      && r.value.value in grammarTerms
      && pts != []
    ensures r.Failure? ==>
      (exists t, i :: t in grammarTerms && 0 <= i < |spec| && eval(t, spec[i].x, spec[i].y) == Failure(r.error))
      || (exists i :: 0 <= i < |grammarPreds| && AnyHolds(grammarPreds[i], pts, predEval) == Failure(r.error))
    ensures forall i, j :: 0 <= i < j < |pts| ==> pts[i] != pts[j]
    ensures forall i :: 0 <= i < |pts| ==> pts[i] in spec
    ensures |pts| <= if maxIterations < 0 then 0 else maxIterations
    ensures r == SynthesisRun(grammarTerms, grammarPreds, spec, maxIterations, 0, [], eval, predEval).0
    ensures pts == SynthesisRun(grammarTerms, grammarPreds, spec, maxIterations, 0, [], eval, predEval).1
  {
    ghost var whole := SynthesisRun(grammarTerms, grammarPreds, spec, maxIterations, 0, [], eval, predEval);
    var points: seq<Triple> := [];
    var iterations := 0;
    while iterations < maxIterations
      invariant 0 <= iterations && |points| == iterations
      invariant iterations <= if maxIterations < 0 then 0 else maxIterations
      invariant forall i, j :: 0 <= i < j < |points| ==> points[i] != points[j]
      invariant forall i :: 0 <= i < |points| ==> points[i] in spec
      invariant SynthesisRun(grammarTerms, grammarPreds, spec, maxIterations, iterations, points, eval, predEval) == whole
      decreases maxIterations - iterations
    {
      iterations := iterations + 1;
      var terms := BottomUpEnumerateTerms(grammarTerms, points, eval);
      if terms == [] {
        return Success(None), points;
      }
      var preds := BottomUpEnumeratePreds(grammarPreds, points, predEval);
      if preds.Failure? {
        EnumeratedPredsFailure(grammarPreds, points, predEval);
        return Failure(preds.error), points;
      }
      var dt := LearnDecisionTree(terms, preds.value, points);
      var candidate := CreateExpressionFromTree(dt);
      var verdict := Verify(candidate, spec, eval);
      if verdict.Failure? {
        return Failure(verdict.error), points;
      }
      if verdict.value.isCorrect {
        return Success(Some(candidate)), points;
      }
      var cex := verdict.value.cex.value;
      if cex in points {
        return Success(None), points;
      }
      points := points + [cex];
    }
    return Success(None), points;
  }
}
