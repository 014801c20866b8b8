/**
 * The specification oracle (`Specification` in utils/specification.py).
 * Running a candidate on a point and running the condition may both raise;
 * both are modelled as functions into `Result`.
 */
module Specification {
  import opened Wrappers

  /** A test point: the argument tuple a candidate is called with. */
  type Point = seq<int>

  /** `Specification(condition)`: `condition(output, *inputs)` judges an output against the inputs. */
  datatype Specification<-O> = Specification(condition: (O, Point) -> Result<bool, Error>)
  {
    /**
     * `holds(f, inputs)`: fail-closed. It is the condition's verdict when the
     * candidate and the condition both return normally, and false when either
     * raises. It depends on the candidate only through its outcome at `inputs`.
     */
    function Holds(f: Point -> Result<O, Error>, inputs: Point): (b: bool)
      ensures f(inputs).Success? && condition(f(inputs).value, inputs).Success? ==>
                (b <==> condition(f(inputs).value, inputs).value)
      ensures f(inputs).Failure? ==> !b
      ensures f(inputs).Success? && condition(f(inputs).value, inputs).Failure? ==> !b
    {
      match f(inputs)
      case Failure(_) => false
      case Success(output) =>
        match condition(output, inputs)
        case Success(verdict) => verdict
        case Failure(_) => false
    }
  }

  /** Two candidates with the same outcome at a point get the same verdict there. */
  lemma HoldsDependsOnOutcome<O>(spec: Specification<O>, f: Point -> Result<O, Error>, g: Point -> Result<O, Error>, inputs: Point)
    requires f(inputs) == g(inputs)
    ensures spec.Holds(f, inputs) == spec.Holds(g, inputs)
  {
  }

  /** A verdict of true means both calls returned and the condition said yes. */
  lemma HoldsOnlyOnSuccess<O>(spec: Specification<O>, f: Point -> Result<O, Error>, inputs: Point)
    requires spec.Holds(f, inputs)
    ensures f(inputs).Success? && spec.condition(f(inputs).value, inputs) == Success(true)
  {
  }
}
