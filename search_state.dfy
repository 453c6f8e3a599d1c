/**
 The search state of the hyperparameter tuner: a point (C, degree) of the
 polynomial-kernel SVM's parameter space, the bounds that every point of the
 search must respect, the objective that scores a point, and the mutable
 state record that carries a point together with its (initially unknown)
 evaluation.
 */
module SearchState {

  /** `None` stands for Python's `None`: a score not yet computed, a best not yet found. */
  datatype Option<T> = None | Some(value: T)

  /** A point of the search space: the regularisation strength C and the kernel degree. */
  datatype Params = Params(c: real, degree: int)

  const C_MIN: real := 0.5
  const C_MAX: real := 250.0
  const DEGREE_MIN: int := 1
  const DEGREE_MAX: int := 15

  predicate CInRange(c: real)
  {
    C_MIN <= c <= C_MAX
  }

  predicate DegreeInRange(d: int)
  {
    DEGREE_MIN <= d <= DEGREE_MAX
  }

  /** The closed box [0.5, 250] x [1, 15] that neighbour generation keeps to. */
  predicate InBounds(p: Params)
  {
    CInRange(p.c) && DegreeInRange(p.degree)
  }

  /**
   The points a restart may begin at. The degree is drawn with an exclusive
   upper bound, so 15 is never a starting degree (it is reachable only as a
   neighbour).
   */
  predicate RandomStart(p: Params)
  {
    CInRange(p.c) && DEGREE_MIN <= p.degree < DEGREE_MAX
  }

  /**
   The objective, with the train/test data bound into it: `score(p)` is the
   number of test examples that an SVM trained with the parameters `p`
   classifies correctly, out of `testSize`. The accuracy of `p` is
   `score(p) / testSize`; since `testSize` is fixed, comparing scores and
   comparing accuracies agree.
   */
  datatype Evaluator = Evaluator(score: Params -> nat, testSize: nat)
  {
    /** No point classifies more test examples than there are. */
    ghost predicate Bounded()
    {
      forall p :: score(p) <= testSize
    }
  }

  /**
   One search node: a parameter point and the score attached to it by
   evaluation. The point is never changed after construction; the score is
   written by `Evaluate`.
   */
  class State {
    const params: Params
    var value: Option<nat>

    /** A fresh state at `p`, not yet evaluated. */
    constructor (p: Params)
      ensures params == p && value == None
    {
      params := p;
      value := None;
    }

    /** Scores this state's point and stores the score in the state. */
    method Evaluate(ev: Evaluator)
      modifies this
      ensures value == Some(ev.score(params))
    {
      value := Some(ev.score(params));
    }
  }
}
