/**
 * The decision-tree data model (the node classes under components/decision_tree,
 * components/decisiontree.py and the copies under utils/decision_tree): leaf and
 * internal nodes, depth assignment from the root down, and rendering to
 * Python-like text.
 */
module DecisionTrees {
  import opened Wrappers
  import opened Text
  import opened Specification

  /** `Predicate(expr)`: holds the predicate's source text unchanged. */
  datatype Predicate = Predicate(str: string)

  /**
   * A node of the tree. `depth` is `None` until the node becomes part of a
   * `DecisionTree`. A branch the learner could not build is `None`.
   */
  datatype Node =
    | Leaf(value: string, depth: Option<nat>)
    | Internal(pred: Predicate, trueBranch: Option<Node>, falseBranch: Option<Node>, depth: Option<nat>)

  /** `LeafNode(value)`: a fresh node has no depth yet. */
  function NewLeaf(value: string): (n: Node)
    ensures n.Leaf? && n.value == value && n.depth.None?
  {
    Leaf(value, None)
  }

  /** `InternalNode(pred, t, f)`: stores the predicate and both branches unchanged; no depth yet. */
  function NewInternal(pred: Predicate, t: Option<Node>, f: Option<Node>): (n: Node)
    ensures n.Internal? && n.pred == pred && n.trueBranch == t && n.falseBranch == f && n.depth.None?
  {
    Internal(pred, t, f, None)
  }

  function Tabs(k: nat): string {
    seq(k, _ => '\t')
  }

  /** `get_indent()`: depth + 1 tab characters, or `ValueError` while the depth is unset. */
  function GetIndent(n: Node): (r: Result<string, Error>)
    ensures r.Failure? <==> n.depth.None?
    ensures r.Failure? ==> r.error == ValueError
    ensures r.Success? ==> |r.value| == n.depth.value + 1 && forall i :: 0 <= i < |r.value| ==> r.value[i] == '\t'
  {
    match n.depth
    case None => Failure(ValueError)
    case Some(d) => Success(Tabs(d + 1))
  }

  /** Every internal node has both branches. */
  predicate Complete(n: Node)
    decreases n
  {
    match n
    case Leaf(_, _) => true
    case Internal(_, t, f, _) => t.Some? && f.Some? && Complete(t.value) && Complete(f.value)
  }

  /** The node sits at depth `d` and every node below it one deeper than its parent. */
  predicate DepthsFrom(n: Node, d: nat)
    decreases n
  {
    && n.depth == Some(d)
    && match n
       case Leaf(_, _) => true
       case Internal(_, t, f, _) =>
         && (t.Some? ==> DepthsFrom(t.value, d + 1))
         && (f.Some? ==> DepthsFrom(f.value, d + 1))
  }

  /** Every node present has a depth. */
  predicate AllDepthsSet(n: Node)
    decreases n
  {
    && n.depth.Some?
    && match n
       case Leaf(_, _) => true
       case Internal(_, t, f, _) =>
         && (t.Some? ==> AllDepthsSet(t.value))
         && (f.Some? ==> AllDepthsSet(f.value))
  }

  /** The tree with every depth forgotten: its shape, predicates and leaf values. */
  function Strip(n: Node): Node
    decreases n
  {
    match n
    case Leaf(v, _) => Leaf(v, None)
    case Internal(p, t, f, _) =>
      Internal(p, if t.Some? then Some(Strip(t.value)) else None, if f.Some? then Some(Strip(f.value)) else None, None)
  }

  /**
   * `set_depth(d)`: this node gets depth `d`, then the true and the false
   * branch get `d + 1`. A missing branch is `None`, whose `set_depth` raises
   * `AttributeError`.
   */
  function SetDepth(n: Node, d: nat): (r: Result<Node, Error>)
    decreases n
    ensures r.Success? <==> Complete(n)
    ensures r.Failure? ==> r.error == AttributeError
    ensures r.Success? ==> DepthsFrom(r.value, d) && Strip(r.value) == Strip(n)
  {
    match n
    case Leaf(v, _) => Success(Leaf(v, Some(d)))
    case Internal(p, t, f, _) =>
      if t.None? then Failure(AttributeError)
      else
        match SetDepth(t.value, d + 1)
        case Failure(e) => Failure(e)
        case Success(t') =>
          if f.None? then Failure(AttributeError)
          else
            match SetDepth(f.value, d + 1)
            case Failure(e) => Failure(e)
            case Success(f') => Success(Internal(p, Some(t'), Some(f'), Some(d)))
  }

  /** Depth assignment is idempotent: assigning the same depths again changes nothing. */
  lemma {:induction false} SetDepthIdempotent(n: Node, d: nat)
    requires DepthsFrom(n, d) && Complete(n)
    ensures SetDepth(n, d) == Success(n)
  {
    match n
    case Leaf(_, _) =>
    case Internal(_, t, f, _) =>
      SetDepthIdempotent(t.value, d + 1);
      SetDepthIdempotent(f.value, d + 1);
  }

  lemma {:induction false} DepthsFromAreSet(n: Node, d: nat)
    requires DepthsFrom(n, d)
    ensures AllDepthsSet(n)
  {
    match n
    case Leaf(_, _) =>
    case Internal(_, t, f, _) =>
      if t.Some? { DepthsFromAreSet(t.value, d + 1); }
      if f.Some? { DepthsFromAreSet(f.value, d + 1); }
  }

  /**
   * `__repr__`: a leaf is `indent + "return " + value`; an internal node is
   * `indent + "if " + pred + ": \n" + true + " \n" + indent + "else: \n" + false`.
   * Rendering raises `ValueError` at the first node without a depth.
   */
  function Render(n: Node): (r: Result<string, Error>)
    decreases n, 1
    ensures r.Success? <==> AllDepthsSet(n)
    ensures r.Failure? ==> r.error == ValueError
  {
    match GetIndent(n)
    case Failure(e) => Failure(e)
    case Success(indent) =>
      match n
      case Leaf(v, _) => Success(indent + "return " + v)
      case Internal(p, t, f, _) =>
        match RenderBranch(t)
        case Failure(e) => Failure(e)
        case Success(ts) =>
          match RenderBranch(f)
          case Failure(e) => Failure(e)
          case Success(fs) => Success(indent + "if " + p.str + ": \n" + ts + " \n" + indent + "else: \n" + fs)
  }

  /** A branch as an f-string shows it: a missing branch is the text "None". */
  function RenderBranch(b: Option<Node>): (r: Result<string, Error>)
    decreases b, 0
    ensures r.Success? <==> (b.Some? ==> AllDepthsSet(b.value))
    ensures r.Failure? ==> r.error == ValueError
  {
    match b
    case None => Success("None")
    case Some(n) => Render(n)
  }

  /** The number of internal nodes. */
  function InternalCount(n: Node): nat
    decreases n
  {
    match n
    case Leaf(_, _) => 0
    case Internal(_, t, f, _) =>
      1 + (if t.Some? then InternalCount(t.value) else 0) + (if f.Some? then InternalCount(f.value) else 0)
  }

  /** No leaf value and no predicate text contains a line break. */
  predicate SingleLine(n: Node)
    decreases n
  {
    match n
    case Leaf(v, _) => '\n' !in v
    case Internal(p, t, f, _) =>
      && '\n' !in p.str
      && (t.Some? ==> SingleLine(t.value))
      && (f.Some? ==> SingleLine(f.value))
  }

  /** The rendering breaks lines only at internal nodes, three times each: after the `if` line, after the true branch and after `else:`. */
  lemma {:induction false} RenderLineBreaks(n: Node)
    requires SingleLine(n) && Render(n).Success?
    ensures Count(Render(n).value, '\n') == 3 * InternalCount(n)
    decreases n
  {
    var indent := GetIndent(n).value;
    CountTabs(|indent|);
    assert indent == Tabs(|indent|);
    match n
    case Leaf(v, _) =>
      LeafLineBreaks(indent, v);
    case Internal(p, t, f, _) =>
      var ts := RenderBranch(t).value;
      var fs := RenderBranch(f).value;
      BranchLineBreaks(t);
      BranchLineBreaks(f);
      CountAbsent(p.str, '\n');
      InternalLineBreaks(indent, p.str, ts, fs);
      assert Render(n).value == indent + "if " + p.str + ": \n" + ts + " \n" + indent + "else: \n" + fs;
  }

  /** A branch breaks lines three times per internal node; a missing one renders as the one-line "None". */
  lemma {:induction false} BranchLineBreaks(b: Option<Node>)
    requires (b.Some? ==> SingleLine(b.value)) && RenderBranch(b).Success?
    ensures Count(RenderBranch(b).value, '\n') == 3 * (if b.Some? then InternalCount(b.value) else 0)
    decreases b, 1
  {
    if b.Some? {
      RenderLineBreaks(b.value);
    } else {
      CountAbsent("None", '\n');
    }
  }

  lemma LeafLineBreaks(indent: string, v: string)
    requires Count(indent, '\n') == 0 && '\n' !in v
    ensures Count(indent + "return " + v, '\n') == 0
  {
    CountAppend(indent, "return ", '\n');
    CountAppend(indent + "return ", v, '\n');
    CountAbsent("return ", '\n');
    CountAbsent(v, '\n');
  }

  lemma InternalLineBreaks(indent: string, pred: string, ts: string, fs: string)
    requires Count(indent, '\n') == 0 && Count(pred, '\n') == 0
    ensures Count(indent + "if " + pred + ": \n" + ts + " \n" + indent + "else: \n" + fs, '\n')
            == 3 + Count(ts, '\n') + Count(fs, '\n')
  {
    var head := indent + "if " + pred + ": \n";
    var middle := " \n" + indent + "else: \n";
    HeadLineBreak(indent, pred);
    MiddleLineBreaks(indent);
    assert indent + "if " + pred + ": \n" + ts + " \n" + indent + "else: \n" + fs == head + ts + middle + fs;
    CountAppend(head, ts, '\n');
    CountAppend(head + ts, middle, '\n');
    CountAppend(head + ts + middle, fs, '\n');
  }

  /** The `if` line ends with the only line break before the true branch. */
  lemma HeadLineBreak(indent: string, pred: string)
    requires Count(indent, '\n') == 0 && Count(pred, '\n') == 0
    ensures Count(indent + "if " + pred + ": \n", '\n') == 1
  {
    CountAppend(indent, "if ", '\n');
    CountAbsent("if ", '\n');
    CountAppend(indent + "if ", pred, '\n');
    LineBreak(": ");
    CountAppend(indent + "if " + pred, ": \n", '\n');
  }

  /** Between the branches: the break after the true branch and the one after `else:`. */
  lemma MiddleLineBreaks(indent: string)
    requires Count(indent, '\n') == 0
    ensures Count(" \n" + indent + "else: \n", '\n') == 2
  {
    LineBreak(" ");
    CountAppend(" \n", indent, '\n');
    LineBreak("else: ");
    CountAppend(" \n" + indent, "else: \n", '\n');
  }

  /** A one-line text followed by a line break. */
  lemma LineBreak(s: string)
    requires '\n' !in s
    ensures Count(s + "\n", '\n') == 1
  {
    CountAbsent(s, '\n');
    CountAppend(s, "\n", '\n');
  }

  lemma {:induction false} CountAppend(a: string, b: string, c: char)
    ensures Count(a + b, c) == Count(a, c) + Count(b, c)
  {
    if a == [] {
      assert a + b == b;
    } else {
      assert (a + b)[0] == a[0];
      assert (a + b)[1..] == a[1..] + b;
      CountAppend(a[1..], b, c);
    }
  }

  lemma {:induction false} CountAbsent(s: string, c: char)
    requires c !in s
    ensures Count(s, c) == 0
  {
    if s != [] {
      CountAbsent(s[1..], c);
    }
  }

  lemma CountTabs(k: nat)
    ensures Count(Tabs(k), '\n') == 0
  {
    CountAbsent(Tabs(k), '\n');
  }

  /**
   * `predict` as written: a leaf returns its value whatever the point, while
   * an internal node reads `self.left` / `self.right` (and, in the utils copy,
   * `self.pred.func`), attributes no constructor sets, so it raises
   * `AttributeError`.
   */
  function Predict(n: Node, pt: Point): (r: Result<string, Error>)
    ensures n.Leaf? ==> r == Success(n.value)
    ensures n.Internal? ==> r == Failure(AttributeError)
  {
    match n
    case Leaf(v, _) => Success(v)
    case Internal(_, _, _, _) => Failure(AttributeError)
  }

  /** The values found at the leaves. */
  function LeafValues(n: Node): set<string>
    decreases n
  {
    match n
    case Leaf(v, _) => {v}
    case Internal(_, t, f, _) =>
      (if t.Some? then LeafValues(t.value) else {}) + (if f.Some? then LeafValues(f.value) else {})
  }

  /**
   * The evidently intended `predict`: follow the true branch when the
   * predicate holds at the point and the false branch otherwise, down to a
   * leaf. `predTrue(pred, pt)` stands for evaluating the predicate's text
   * with the parameters bound to the point.
   */
  function PredictIntended(n: Node, pt: Point, predTrue: (string, Point) -> bool): (r: Result<string, Error>)
    decreases n
    ensures Complete(n) ==> r.Success?
    ensures r.Success? ==> r.value in LeafValues(n)
    ensures r.Failure? ==> r.error == AttributeError
  {
    match n
    case Leaf(v, _) => Success(v)
    case Internal(p, t, f, _) =>
      var branch := if predTrue(p.str, pt) then t else f;
      if branch.None? then Failure(AttributeError) else PredictIntended(branch.value, pt, predTrue)
  }

  /** The as-written `predict` fails on every tree with an internal root, even where the intended one succeeds. */
  lemma PredictFailsOnInternalNodes()
    ensures var n := Internal(Predicate("x < y"), Some(Leaf("y", Some(1))), Some(Leaf("x", Some(1))), Some(0));
            && Predict(n, [0, 1]) == Failure(AttributeError)
            && PredictIntended(n, [0, 1], (s, pt) => s == "x < y" && |pt| == 2 && pt[0] < pt[1]) == Success("y")
  {
  }

  /** Depth assignment does not change what the intended predictor computes. */
  lemma {:induction false} SetDepthKeepsPrediction(n: Node, d: nat, pt: Point, predTrue: (string, Point) -> bool)
    requires SetDepth(n, d).Success?
    ensures PredictIntended(SetDepth(n, d).value, pt, predTrue) == PredictIntended(n, pt, predTrue)
    decreases n
  {
    match n
    case Leaf(_, _) =>
    case Internal(p, t, f, _) =>
      SetDepthKeepsPrediction(t.value, d + 1, pt, predTrue);
      SetDepthKeepsPrediction(f.value, d + 1, pt, predTrue);
  }

  /** `DecisionTree(root, params)`; the utils copy is the same without `params`. */
  datatype DecisionTree = DecisionTree(root: Option<Node>, params: seq<string>)

  /**
   * The constructor: `root.set_depth()` gives the root depth 0, then root and
   * params are stored. A `None` root has no `set_depth`, so it raises
   * `AttributeError`, as does any missing branch below it.
   */
  function NewDecisionTree(root: Option<Node>, params: seq<string>): (r: Result<DecisionTree, Error>)
    ensures r.Success? <==> root.Some? && Complete(root.value)
    ensures r.Failure? ==> r.error == AttributeError
    ensures r.Success? ==>
      && r.value.params == params && r.value.root.Some?
      && DepthsFrom(r.value.root.value, 0) && Strip(r.value.root.value) == Strip(root.value)
  {
    match root
    case None => Failure(AttributeError)
    case Some(n) =>
      match SetDepth(n, 0)
      case Failure(e) => Failure(e)
      case Success(m) => Success(DecisionTree(Some(m), params))
  }

  /** `predict(pt)`: `ValueError` on an empty tree, otherwise the root's (as-written) prediction. */
  function TreePredict(tree: DecisionTree, pt: Point): (r: Result<string, Error>)
    ensures tree.root.None? ==> r == Failure(ValueError)
    ensures tree.root.Some? && tree.root.value.Leaf? ==> r == Success(tree.root.value.value)
    ensures tree.root.Some? && tree.root.value.Internal? ==> r == Failure(AttributeError)
  {
    match tree.root
    case None => Failure(ValueError)
    case Some(n) => Predict(n, pt)
  }

  /** `__repr__`: the root's rendering (`None` renders as "None"). */
  function TreeRender(tree: DecisionTree): (r: Result<string, Error>)
    ensures tree.root.None? ==> r == Success("None")
    ensures r.Success? <==> (tree.root.Some? ==> AllDepthsSet(tree.root.value))
    ensures r.Failure? ==> r.error == ValueError
  {
    RenderBranch(tree.root)
  }

  /** A constructed tree always renders: construction gives every node a depth. */
  lemma ConstructedTreeRenders(root: Option<Node>, params: seq<string>)
    requires NewDecisionTree(root, params).Success?
    ensures TreeRender(NewDecisionTree(root, params).value).Success?
  {
    DepthsFromAreSet(NewDecisionTree(root, params).value.root.value, 0);
  }

  /** `specification_holds(spec_condition, pt)`: the condition on the predicted output, false if anything raises. */
  function SpecificationHolds(tree: DecisionTree, spec: Specification<string>, pt: Point): (b: bool)
    ensures b <==> TreePredict(tree, pt).Success? && spec.condition(TreePredict(tree, pt).value, pt) == Success(true)
  {
    spec.Holds(q => TreePredict(tree, q), pt)
  }

  /** With the as-written `predict`, no tree with an internal root satisfies any specification. */
  lemma InternalRootNeverHolds(tree: DecisionTree, spec: Specification<string>, pt: Point)
    requires tree.root.Some? && tree.root.value.Internal?
    ensures !SpecificationHolds(tree, spec, pt)
  {
  }
}
