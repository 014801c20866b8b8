/**
 * The test-point schedule of `M3._generate_test_pts` and the sampling
 * verifier `M3._verify` (m3.py). The random draws are an input: `draw(k, i)`
 * is the raw value behind coordinate `i` of the `k`-th point.
 */
module TestPoints {
  import opened Wrappers
  import opened Specification

  /** `sys.maxsize` on a 64-bit build. */
  const MaxSize: int := 0x7FFF_FFFF_FFFF_FFFF

  function Pow2(k: nat): nat {
    if k == 0 then 1 else 2 * Pow2(k - 1)
  }

  function Min(a: int, b: int): int {
    if a <= b then a else b
  }

  /** `comlement_min(max)`: the least value of a range whose greatest is `max`. */
  function ComplementMin(max: int): int {
    -max - 1
  }

  /** `(current_range_max, range_step)` once `n` points have been generated. */
  function Schedule(n: nat): (int, int) {
    if n == 0 then (10, 10)
    else
      var (rangeMax, step) := Schedule(n - 1);
      if n % 5 == 0 then
        (if rangeMax + step <= MaxSize then rangeMax + step else MaxSize, step * 2)
      else (rangeMax, step)
  }

  /** The schedule in closed form: the step doubles every fifth point, and the range keeps up with it until it reaches `sys.maxsize`. */
  lemma {:induction false} ScheduleClosedForm(n: nat)
    ensures Schedule(n) == (Min(10 * Pow2(n / 5), MaxSize), 10 * Pow2(n / 5))
  {
    if n > 0 {
      ScheduleClosedForm(n - 1);
      if n % 5 == 0 {
        assert n / 5 == (n - 1) / 5 + 1;
      } else {
        assert n / 5 == (n - 1) / 5;
      }
    }
  }

  lemma {:induction false} Pow2Positive(k: nat)
    ensures Pow2(k) >= 1
  {
    if k > 0 {
      Pow2Positive(k - 1);
    }
  }

  /** The range maximum starts at 10, never falls below it and never exceeds `sys.maxsize`. */
  lemma ScheduleBounds(n: nat)
    ensures 10 <= Schedule(n).0 <= MaxSize
    ensures Schedule(n).1 >= 10
  {
    ScheduleClosedForm(n);
    Pow2Positive(n / 5);
  }

  /** `random.randint(comlement_min(m), m)` driven by the raw draw `raw`. */
  function DrawIn(raw: int, m: nat): (v: int)
    ensures ComplementMin(m) <= v <= m
  {
    ComplementMin(m) + raw % (2 * m + 2)
  }

  /** The `n`-th point (counting from 0) a fresh generator yields for the raw draws `draws`. */
  function Sample(draws: seq<int>, n: nat): (pt: Point)
    ensures |pt| == |draws|
    ensures forall i :: 0 <= i < |pt| ==> ComplementMin(Schedule(n).0) <= pt[i] <= Schedule(n).0
    ensures forall i :: 0 <= i < |pt| ==> ComplementMin(MaxSize) <= pt[i] <= MaxSize
  {
    ScheduleBounds(n);
    seq(|draws|, i requires 0 <= i < |draws| => DrawIn(draws[i], Schedule(n).0))
  }

  /** The state of one `_generate_test_pts(args_num)` generator. */
  class TestPointGenerator {
    const argsNum: nat
    var currentRangeMax: int
    var rangeStep: int
    var generated: nat

    ghost predicate Valid()
      reads this
    {
      (currentRangeMax, rangeStep) == Schedule(generated)
    }

    constructor (argsNum: nat)
      ensures Valid() && this.argsNum == argsNum && generated == 0
      ensures currentRangeMax == 10 && rangeStep == 10
    {
      this.argsNum := argsNum;
      currentRangeMax := 10;
      rangeStep := 10;
      generated := 0;
    }

    /** One point of `args_num` coordinates, then the schedule update after every fifth point. */
    method Next(draws: seq<int>) returns (pt: Point)
      requires Valid() && |draws| == argsNum
      modifies this
      ensures Valid() && generated == old(generated) + 1
      ensures pt == Sample(draws, old(generated))
    {
      ScheduleBounds(generated);
      var values: seq<int> := [];
      for i := 0 to argsNum
        invariant |values| == i
        invariant forall j :: 0 <= j < i ==> values[j] == DrawIn(draws[j], currentRangeMax)
      {
        values := values + [DrawIn(draws[i], currentRangeMax)];
      }
      pt := values;
      generated := generated + 1;
      if generated % 5 == 0 {
        currentRangeMax := if currentRangeMax + rangeStep <= MaxSize then currentRangeMax + rangeStep else MaxSize;
        rangeStep := rangeStep * 2;
      }
    }
  }

  /** The `k`-th sample of a fresh generator whose raw draws are `draw(k, _)`. */
  function SamplePoint(draw: (nat, nat) -> int, argsNum: nat, k: nat): Point {
    Sample(Draws(draw, argsNum, k), k)
  }

  /** The raw draws behind the `k`-th sample. */
  function Draws(draw: (nat, nat) -> int, argsNum: nat, k: nat): (r: seq<int>)
    ensures |r| == argsNum
  {
    seq(argsNum, i requires 0 <= i < argsNum => draw(k, i))
  }

  /**
   * `_verify(expr, max_checks)`: the first of at most `max_checks` samples
   * on which the candidate fails the specification, or `None` when all pass.
   */
  method VerifyCandidate(spec: Specification<int>, candidate: Point -> Result<int, Error>, argsNum: nat,
                         maxChecks: int, draw: (nat, nat) -> int) returns (cex: Option<Point>)
    ensures cex.None? <==> forall k: nat :: k < maxChecks ==> spec.Holds(candidate, SamplePoint(draw, argsNum, k))
    ensures cex.Some? ==>
      exists k: nat :: k < maxChecks && cex.value == SamplePoint(draw, argsNum, k) && !spec.Holds(candidate, cex.value)
                       && forall j: nat :: j < k ==> spec.Holds(candidate, SamplePoint(draw, argsNum, j))
  {
    var testPts := new TestPointGenerator(argsNum);
    var checkI: nat := 0;
    while checkI < maxChecks
      invariant testPts.Valid() && testPts.generated == checkI && testPts.argsNum == argsNum
      invariant forall j: nat :: j < checkI ==> spec.Holds(candidate, SamplePoint(draw, argsNum, j))
      decreases maxChecks - checkI
    {
      var pt := testPts.Next(Draws(draw, argsNum, checkI));
      assert pt == SamplePoint(draw, argsNum, checkI);
      if !spec.Holds(candidate, pt) {
        return Some(pt);
      }
      checkI := checkI + 1;
    }
    return None;
  }
}
