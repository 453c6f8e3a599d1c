/**
 Random-restart, first-improvement hill climbing over (C, degree).

 The specification is given by functions: `Step` is one move of the climb
 (the first neighbour, in generation order, that scores strictly higher),
 `ClimbPath` is the sequence of states that are current during one restart,
 `TrackPath` folds the best-so-far policy over such a sequence, and `Search`
 runs every restart in turn. `RandomRestartHillClimbing` is the imperative
 search, proved to compute `Search`.
 */
module HillClimbing {
  import opened SearchState
  import opened NeighbourGeneration

  /** No neighbour of `p` scores strictly higher than `p`. */
  predicate LocalOptimum(p: Params, ev: Evaluator)
  {
    var ns := Neighbours(p);
    forall i :: 0 <= i < |ns| ==> ev.score(ns[i]) <= ev.score(p)
  }

  /**
   The index of the first point in `ns` that scores strictly more than `v`,
   or `None` when there is none.
   */
  function FirstImprovement(ns: seq<Params>, v: nat, ev: Evaluator): (r: Option<nat>)
    ensures r.Some? ==> r.value < |ns| && ev.score(ns[r.value]) > v
    ensures r.Some? ==> forall j :: 0 <= j < r.value ==> ev.score(ns[j]) <= v
    ensures r.None? ==> forall j :: 0 <= j < |ns| ==> ev.score(ns[j]) <= v
  {
    if ns == [] then None
    else if ev.score(ns[0]) > v then Some(0)
    else match FirstImprovement(ns[1..], v, ev)
      case None => None
      case Some(i) => Some(i + 1)
  }

  /**
   `q` is the neighbour of `p` at index `i`, it scores strictly more than `p`,
   and no earlier neighbour does.
   */
  predicate FirstImprovingAt(p: Params, q: Params, i: int, ev: Evaluator)
  {
    var ns := Neighbours(p);
    && 0 <= i < |ns|
    && ns[i] == q
    && ev.score(q) > ev.score(p)
    && forall j :: 0 <= j < i ==> ev.score(ns[j]) <= ev.score(p)
  }

  /**
   One move of the climb from `p`: the first neighbour whose score strictly
   exceeds the score of `p`, or `None` at a local optimum.
   */
  function Step(p: Params, ev: Evaluator): (r: Option<Params>)
    ensures r.Some? ==> r.value in Neighbours(p) && ev.score(r.value) > ev.score(p)
    ensures r.Some? ==> exists i :: FirstImprovingAt(p, r.value, i, ev)
    ensures r.None? <==> LocalOptimum(p, ev)
  {
    var ns := Neighbours(p);
    match FirstImprovement(ns, ev.score(p), ev)
    case None => None
    case Some(i) =>
      assert FirstImprovingAt(p, ns[i], i, ev);
      Some(ns[i])
  }

  /**
   The states that are current, in order, during one restart begun at `p`:
   it starts at `p`, each next state is the move `Step` picks, and it ends
   at a local optimum. Since each move raises the score by at least one,
   there are at most `testSize - score(p)` moves.
   */
  function ClimbPath(p: Params, ev: Evaluator): (path: seq<Params>)
    requires ev.Bounded()
    ensures 1 <= |path| <= ev.testSize - ev.score(p) + 1
    ensures path[0] == p
    ensures LocalOptimum(path[|path| - 1], ev)
    ensures forall i :: 0 <= i < |path| - 1 ==> Step(path[i], ev) == Some(path[i + 1])
    decreases ev.testSize - ev.score(p)
  {
    match Step(p, ev)
    case None => [p]
    case Some(q) => [p] + ClimbPath(q, ev)
  }

  /** The scores along `path` strictly increase. */
  predicate StrictlyAscending(path: seq<Params>, ev: Evaluator)
  {
    forall i, j :: 0 <= i < j < |path| ==> ev.score(path[i]) < ev.score(path[j])
  }

  /** Within one restart the scores of successive current states strictly increase. */
  lemma {:induction false} ClimbPathAscends(p: Params, ev: Evaluator)
    requires ev.Bounded()
    ensures StrictlyAscending(ClimbPath(p, ev), ev)
    decreases ev.testSize - ev.score(p)
  {
    match Step(p, ev)
    case None =>
    case Some(q) =>
      ClimbPathAscends(q, ev);
      var rest := ClimbPath(q, ev);
      var path := ClimbPath(p, ev);
      assert path == [p] + rest;
      forall i, j | 0 <= i < j < |path|
        ensures ev.score(path[i]) < ev.score(path[j])
      {
        assert path[j] == rest[j - 1];
        if i > 0 {
          assert path[i] == rest[i - 1];
        } else {
          assert path[i] == p && rest[0] == q;
          if j > 1 {
            assert ev.score(rest[0]) < ev.score(rest[j - 1]);
          }
        }
      }
  }

  /** Every point of `ps` lies in the box. */
  predicate AllInBounds(ps: seq<Params>)
  {
    forall i :: 0 <= i < |ps| ==> InBounds(ps[i])
  }

  /** A restart begun inside the box never leaves it. */
  lemma {:induction false} ClimbPathInBounds(p: Params, ev: Evaluator)
    requires ev.Bounded() && InBounds(p)
    ensures AllInBounds(ClimbPath(p, ev))
    decreases ev.testSize - ev.score(p)
  {
    match Step(p, ev)
    case None =>
    case Some(q) =>
      NeighboursInBounds(p);
      ClimbPathInBounds(q, ev);
      assert ClimbPath(p, ev) == [p] + ClimbPath(q, ev);
  }

  /**
   The best point found so far and its score (a count of correct test
   predictions). `c` and `degree` are `None` until some point scores above 0.
   */
  datatype SearchResult = SearchResult(c: Option<real>, degree: Option<int>, accuracy: nat)

  /** The result before any state has been seen. */
  const NoResult: SearchResult := SearchResult(None, None, 0)

  /** The result that records `p` with score `v`. */
  function Found(p: Params, v: nat): SearchResult
  {
    SearchResult(Some(p.c), Some(p.degree), v)
  }

  /** The best-so-far rule: `p` replaces the best only when its score is strictly higher. */
  function UpdateBest(best: SearchResult, p: Params, v: nat): SearchResult
  {
    if v > best.accuracy then Found(p, v) else best
  }

  /** The best after offering the states of `path`, in order, to `best`. */
  function TrackPath(best: SearchResult, path: seq<Params>, ev: Evaluator): SearchResult
    decreases |path|
  {
    if path == [] then best
    else TrackPath(UpdateBest(best, path[0], ev.score(path[0])), path[1..], ev)
  }

  /** Every state that is current during the restarts begun at `starts`, in visiting order. */
  function Visited(starts: seq<Params>, ev: Evaluator): seq<Params>
    requires ev.Bounded()
  {
    if starts == [] then []
    else Visited(starts[..|starts| - 1], ev) + ClimbPath(starts[|starts| - 1], ev)
  }

  /** The result of the restarts begun at `starts`, one after the other. */
  function Search(starts: seq<Params>, ev: Evaluator): SearchResult
    requires ev.Bounded()
  {
    if starts == [] then NoResult
    else TrackPath(Search(starts[..|starts| - 1], ev), ClimbPath(starts[|starts| - 1], ev), ev)
  }

  /** Offering `xs` and then `ys` is the same as offering `xs + ys`. */
  lemma {:induction false} TrackPathAppend(best: SearchResult, xs: seq<Params>, ys: seq<Params>, ev: Evaluator)
    ensures TrackPath(best, xs + ys, ev) == TrackPath(TrackPath(best, xs, ev), ys, ev)
    decreases |xs|
  {
    if xs == [] {
      assert xs + ys == ys;
    } else {
      assert (xs + ys)[0] == xs[0] && (xs + ys)[1..] == xs[1..] + ys;
      TrackPathAppend(UpdateBest(best, xs[0], ev.score(xs[0])), xs[1..], ys, ev);
    }
  }

  /** The search offers every visited state, in visiting order, to the empty result. */
  lemma {:induction false} SearchTracksVisited(starts: seq<Params>, ev: Evaluator)
    requires ev.Bounded()
    ensures Search(starts, ev) == TrackPath(NoResult, Visited(starts, ev), ev)
  {
    if starts != [] {
      var init := starts[..|starts| - 1];
      SearchTracksVisited(init, ev);
      TrackPathAppend(NoResult, Visited(init, ev), ClimbPath(starts[|starts| - 1], ev), ev);
    }
  }

  /**
   `r` records `path[i]` with its score, and every earlier state of `path`
   scored strictly less: `path[i]` is the first state to reach `r`.
   */
  predicate FirstToReach(r: SearchResult, path: seq<Params>, i: int, ev: Evaluator)
  {
    && 0 <= i < |path|
    && r == Found(path[i], ev.score(path[i]))
    && forall j :: 0 <= j < i ==> ev.score(path[j]) < r.accuracy
  }

  /**
   The best-so-far policy: the best never gets worse, ends at least as good
   as every offered state, is left alone exactly when no offered state beats
   it, and otherwise records the earliest offered state of maximal score.
   */
  lemma {:induction false} TrackPathKeepsBest(best: SearchResult, path: seq<Params>, ev: Evaluator)
    ensures best.accuracy <= TrackPath(best, path, ev).accuracy
    ensures forall j :: 0 <= j < |path| ==> ev.score(path[j]) <= TrackPath(best, path, ev).accuracy
    ensures TrackPath(best, path, ev) == best <==> forall j :: 0 <= j < |path| ==> ev.score(path[j]) <= best.accuracy
    ensures TrackPath(best, path, ev) != best ==>
              && best.accuracy < TrackPath(best, path, ev).accuracy
              && exists i :: FirstToReach(TrackPath(best, path, ev), path, i, ev)
    decreases |path|
  {
    if path != [] {
      var rest := path[1..];
      var b1 := UpdateBest(best, path[0], ev.score(path[0]));
      TrackPathKeepsBest(b1, rest, ev);
      var r := TrackPath(best, path, ev);
      assert r == TrackPath(b1, rest, ev);
      assert forall j :: 0 < j < |path| ==> path[j] == rest[j - 1];
      if forall j :: 0 <= j < |path| ==> ev.score(path[j]) <= best.accuracy {
        assert b1 == best;
      }
      if r != best {
        if r == b1 {
          assert FirstToReach(r, path, 0, ev);
        } else {
          var i :| FirstToReach(r, rest, i, ev);
          assert FirstToReach(r, path, i + 1, ev);
        }
      }
    }
  }

  /**
   The result of the whole search: at least as good as every state that was
   ever current; `NoResult` exactly when every such state scored 0; and
   otherwise the first current state, in visiting order, of maximal score.
   */
  lemma SearchBest(starts: seq<Params>, ev: Evaluator)
    requires ev.Bounded()
    ensures forall j :: 0 <= j < |Visited(starts, ev)| ==> ev.score(Visited(starts, ev)[j]) <= Search(starts, ev).accuracy
    ensures Search(starts, ev) == NoResult <==> forall j :: 0 <= j < |Visited(starts, ev)| ==> ev.score(Visited(starts, ev)[j]) == 0
    ensures Search(starts, ev) != NoResult ==>
              && Search(starts, ev).accuracy > 0
              && exists i :: FirstToReach(Search(starts, ev), Visited(starts, ev), i, ev)
  {
    SearchTracksVisited(starts, ev);
    TrackPathKeepsBest(NoResult, Visited(starts, ev), ev);
  }

  /** When every restart begins at a legal random start, every current state stays in the box. */
  lemma {:induction false} VisitedInBounds(starts: seq<Params>, ev: Evaluator)
    requires ev.Bounded()
    requires forall k :: 0 <= k < |starts| ==> RandomStart(starts[k])
    ensures AllInBounds(Visited(starts, ev))
  {
    if starts != [] {
      var init := starts[..|starts| - 1];
      var front := Visited(init, ev);
      var path := ClimbPath(starts[|starts| - 1], ev);
      VisitedInBounds(init, ev);
      ClimbPathInBounds(starts[|starts| - 1], ev);
      assert Visited(starts, ev) == front + path;
      forall j | 0 <= j < |front + path|
        ensures InBounds((front + path)[j])
      {
        if j >= |front| {
          assert (front + path)[j] == path[j - |front|];
        }
      }
    }
  }

  /** ... and so the point the search returns, if any, lies in the box. */
  lemma SearchResultInBounds(starts: seq<Params>, ev: Evaluator)
    requires ev.Bounded()
    requires forall k :: 0 <= k < |starts| ==> RandomStart(starts[k])
    ensures var r := Search(starts, ev);
            r == NoResult || (r.c.Some? && r.degree.Some? && InBounds(Params(r.c.value, r.degree.value)))
  {
    SearchBest(starts, ev);
    VisitedInBounds(starts, ev);
  }

  /**
   Evaluates the neighbours of the evaluated state `current` one at a time,
   in generation order, and stops at the first one that scores strictly
   higher: that neighbour is returned, or `null` when none improves.
   */
  method ImprovingNeighbour(current: State, ev: Evaluator) returns (next: State?)
    requires current.value == Some(ev.score(current.params))
    ensures next == null <==> Step(current.params, ev) == None
    ensures next != null ==> fresh(next) && Step(current.params, ev) == Some(next.params)
                             && next.value == Some(ev.score(next.params))
  {
    var neighbours := GenerateNeighbours(current);
    ghost var ns := Neighbours(current.params);
    assert |ns| == |neighbours| && forall j :: 0 <= j < |ns| ==> ns[j] == neighbours[j].params;
    for i := 0 to |neighbours|
      invariant current.value == Some(ev.score(current.params))
      invariant forall j :: 0 <= j < |neighbours| ==> neighbours[j] != current && fresh(neighbours[j])
      invariant forall j :: 0 <= j < i ==> ev.score(ns[j]) <= ev.score(current.params)
    {
      neighbours[i].Evaluate(ev);
      if neighbours[i].value.value > current.value.value {
        assert FirstImprovement(ns, ev.score(current.params), ev) == Some(i);
        return neighbours[i];
      }
    }
    return null;
  }

  /**
   One restart begun at `start`: climbs until no neighbour improves, offering
   every state that becomes current to the best-so-far `best`.
   */
  method Climb(start: Params, best: SearchResult, ev: Evaluator) returns (updated: SearchResult)
    requires ev.Bounded()
    ensures updated == TrackPath(best, ClimbPath(start, ev), ev)
  {
    var bestAccuracy, bestC, bestDegree := best.accuracy, best.c, best.degree;
    var current := new State(start);
    while true
      invariant fresh(current)
      invariant TrackPath(best, ClimbPath(start, ev), ev)
                == TrackPath(SearchResult(bestC, bestDegree, bestAccuracy), ClimbPath(current.params, ev), ev)
      decreases ev.testSize - ev.score(current.params)
    {
      ghost var here := current.params;
      ghost var before := SearchResult(bestC, bestDegree, bestAccuracy);
      current.Evaluate(ev);
      if current.value.value > bestAccuracy {
        bestAccuracy := current.value.value;
        bestC := Some(current.params.c);
        bestDegree := Some(current.params.degree);
      }
      assert SearchResult(bestC, bestDegree, bestAccuracy) == UpdateBest(before, here, ev.score(here));

      var next := ImprovingNeighbour(current, ev);
      if next == null {
        break;
      }
      current := next;
      assert ClimbPath(here, ev) == [here] + ClimbPath(current.params, ev);
    }
    updated := SearchResult(bestC, bestDegree, bestAccuracy);
  }

  /**
   Runs one first-improvement hill climb from each of `starts` (the random
   starting points) and returns the best point seen and its score.
   */
  method RandomRestartHillClimbing(starts: seq<Params>, ev: Evaluator) returns (best: SearchResult)
    requires ev.Bounded()
    ensures best == Search(starts, ev)
  {
    best := NoResult;
    for k := 0 to |starts|
      invariant best == Search(starts[..k], ev)
    {
      assert starts[..k + 1][..k] == starts[..k];
      best := Climb(starts[k], best, ev);
    }
    assert starts[..|starts|] == starts;
  }
}
