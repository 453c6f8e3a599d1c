/**
 Neighbour generation: from a point (C, degree), the axis-aligned moves
 C - 0.05, C + 0.05, degree - 1, degree + 1, in that order, each kept only
 when the moved coordinate stays inside its closed range.
 */
module NeighbourGeneration {
  import opened SearchState

  /** The steps tried on C, in the order they are tried. */
  const C_DELTAS: seq<real> := [-0.05, 0.05]
  /** The steps tried on the degree, in the order they are tried. */
  const DEGREE_DELTAS: seq<int> := [-1, 1]

  /** The neighbour that moves C by `delta`, if the new C stays in range. */
  function CNeighbour(p: Params, delta: real): seq<Params>
  {
    if CInRange(p.c + delta) then [Params(p.c + delta, p.degree)] else []
  }

  /** The neighbour that moves the degree by `delta`, if the new degree stays in range. */
  function DegreeNeighbour(p: Params, delta: int): seq<Params>
  {
    if DegreeInRange(p.degree + delta) then [Params(p.c, p.degree + delta)] else []
  }

  /** The C-neighbours produced by trying `deltas` in order. */
  function CNeighbours(p: Params, deltas: seq<real>): seq<Params>
  {
    if deltas == [] then []
    else CNeighbours(p, deltas[..|deltas| - 1]) + CNeighbour(p, deltas[|deltas| - 1])
  }

  /** The degree-neighbours produced by trying `deltas` in order. */
  function DegreeNeighbours(p: Params, deltas: seq<int>): seq<Params>
  {
    if deltas == [] then []
    else DegreeNeighbours(p, deltas[..|deltas| - 1]) + DegreeNeighbour(p, deltas[|deltas| - 1])
  }

  /** The neighbour list of `p`, in generation order: first the C moves, then the degree moves. */
  function Neighbours(p: Params): seq<Params>
  {
    CNeighbours(p, C_DELTAS) + DegreeNeighbours(p, DEGREE_DELTAS)
  }

  /** The points of a sequence of states. */
  function ParamsOf(states: seq<State>): seq<Params>
  {
    seq(|states|, i requires 0 <= i < |states| => states[i].params)
  }

  /** Appending a state appends its point. */
  lemma ParamsOfAppend(states: seq<State>, s: State)
    ensures ParamsOf(states + [s]) == ParamsOf(states) + [s.params]
  {
  }

  /**
   Builds the neighbour states of `current`: fresh, distinct, unevaluated
   states whose points are `Neighbours(current.params)`, in that order.
   `current` itself is left as it was.
   */
  method GenerateNeighbours(current: State) returns (neighbours: seq<State>)
    ensures ParamsOf(neighbours) == Neighbours(current.params)
    ensures forall i :: 0 <= i < |neighbours| ==> fresh(neighbours[i]) && neighbours[i].value == None
    ensures forall i, j :: 0 <= i < j < |neighbours| ==> neighbours[i] != neighbours[j]
    ensures current.value == old(current.value)
  {
    var cMoves := CMoves(current.params);
    var degreeMoves := DegreeMoves(current.params);
    neighbours := cMoves + degreeMoves;
    assert ParamsOf(neighbours) == ParamsOf(cMoves) + ParamsOf(degreeMoves);
  }

  /** The first loop: fresh, distinct, unevaluated states at the C moves of `p`, in order. */
  method CMoves(p: Params) returns (states: seq<State>)
    ensures ParamsOf(states) == CNeighbours(p, C_DELTAS)
    ensures forall i :: 0 <= i < |states| ==> fresh(states[i]) && states[i].value == None
    ensures forall i, j :: 0 <= i < j < |states| ==> states[i] != states[j]
  {
    states := [];
    for k := 0 to |C_DELTAS|
      invariant ParamsOf(states) == CNeighbours(p, C_DELTAS[..k])
      invariant forall i :: 0 <= i < |states| ==> fresh(states[i]) && states[i].value == None
      invariant forall i, j :: 0 <= i < j < |states| ==> states[i] != states[j]
    {
      assert C_DELTAS[..k + 1][..k] == C_DELTAS[..k];
      assert CNeighbours(p, C_DELTAS[..k + 1]) == CNeighbours(p, C_DELTAS[..k]) + CNeighbour(p, C_DELTAS[k]);
      var c := p.c + C_DELTAS[k];
      if C_MIN <= c <= C_MAX {
        var neighbour := new State(Params(c, p.degree));
        ParamsOfAppend(states, neighbour);
        states := states + [neighbour];
      }
    }
    assert C_DELTAS[..|C_DELTAS|] == C_DELTAS;
  }

  /** The second loop: fresh, distinct, unevaluated states at the degree moves of `p`, in order. */
  method DegreeMoves(p: Params) returns (states: seq<State>)
    ensures ParamsOf(states) == DegreeNeighbours(p, DEGREE_DELTAS)
    ensures forall i :: 0 <= i < |states| ==> fresh(states[i]) && states[i].value == None
    ensures forall i, j :: 0 <= i < j < |states| ==> states[i] != states[j]
  {
    states := [];
    for k := 0 to |DEGREE_DELTAS|
      invariant ParamsOf(states) == DegreeNeighbours(p, DEGREE_DELTAS[..k])
      invariant forall i :: 0 <= i < |states| ==> fresh(states[i]) && states[i].value == None
      invariant forall i, j :: 0 <= i < j < |states| ==> states[i] != states[j]
    {
      assert DEGREE_DELTAS[..k + 1][..k] == DEGREE_DELTAS[..k];
      assert DegreeNeighbours(p, DEGREE_DELTAS[..k + 1]) == DegreeNeighbours(p, DEGREE_DELTAS[..k]) + DegreeNeighbour(p, DEGREE_DELTAS[k]);
      var d := p.degree + DEGREE_DELTAS[k];
      if DEGREE_MIN <= d <= DEGREE_MAX {
        var neighbour := new State(Params(p.c, d));
        ParamsOfAppend(states, neighbour);
        states := states + [neighbour];
      }
    }
    assert DEGREE_DELTAS[..|DEGREE_DELTAS|] == DEGREE_DELTAS;
  }

  /** Neighbours written out move by move. */
  lemma NeighboursUnfold(p: Params)
    ensures Neighbours(p) == CNeighbour(p, -0.05) + CNeighbour(p, 0.05)
                             + DegreeNeighbour(p, -1) + DegreeNeighbour(p, 1)
  {
    assert C_DELTAS[..1] == [-0.05] && C_DELTAS[..1][..0] == [];
    assert CNeighbours(p, C_DELTAS[..1]) == CNeighbour(p, -0.05);
    assert DEGREE_DELTAS[..1] == [-1] && DEGREE_DELTAS[..1][..0] == [];
    assert DegreeNeighbours(p, DEGREE_DELTAS[..1]) == DegreeNeighbour(p, -1);
  }

  /** The four axis-aligned moves of `p`, in the order they are tried, before any filtering. */
  function Candidates(p: Params): seq<Params>
  {
    [Params(p.c - 0.05, p.degree), Params(p.c + 0.05, p.degree),
     Params(p.c, p.degree - 1), Params(p.c, p.degree + 1)]
  }

  /** The in-bounds elements of `ps`, in their original order. */
  function KeepInBounds(ps: seq<Params>): seq<Params>
  {
    if ps == [] then []
    else (if InBounds(ps[0]) then [ps[0]] else []) + KeepInBounds(ps[1..])
  }

  /**
   For an in-bounds point, the neighbour list is exactly the list of the four
   candidate moves with the out-of-bounds ones dropped and the order kept.
   */
  lemma NeighboursAreFilteredCandidates(p: Params)
    requires InBounds(p)
    ensures Neighbours(p) == KeepInBounds(Candidates(p))
  {
    NeighboursUnfold(p);
    var cs := Candidates(p);
    assert cs[1..][1..][1..][1..] == [];
    assert KeepInBounds(cs[1..][1..][1..]) == DegreeNeighbour(p, 1);
    assert KeepInBounds(cs[1..][1..]) == DegreeNeighbour(p, -1) + DegreeNeighbour(p, 1);
    assert KeepInBounds(cs[1..]) == CNeighbour(p, 0.05) + DegreeNeighbour(p, -1) + DegreeNeighbour(p, 1);
  }

  /** Every neighbour of an in-bounds point is in bounds. */
  lemma NeighboursInBounds(p: Params)
    requires InBounds(p)
    ensures forall i :: 0 <= i < |Neighbours(p)| ==> InBounds(Neighbours(p)[i])
  {
    NeighboursUnfold(p);
  }

  /**
   `q` is one step away from `p` along exactly one axis: C moved by 0.05 with
   the degree kept, or the degree moved by 1 with C kept.
   */
  predicate OneAxisStep(p: Params, q: Params)
  {
    || (q.degree == p.degree && (q.c == p.c - 0.05 || q.c == p.c + 0.05))
    || (q.c == p.c && (q.degree == p.degree - 1 || q.degree == p.degree + 1))
  }

  /** Every neighbour differs from its origin in exactly one coordinate, by one step. */
  lemma NeighboursAreOneAxisSteps(p: Params)
    ensures forall i :: 0 <= i < |Neighbours(p)| ==> OneAxisStep(p, Neighbours(p)[i]) && Neighbours(p)[i] != p
  {
    NeighboursUnfold(p);
  }

  /**
   How many of the four moves of `p` leave the box: one for each coordinate
   that lies within one step of its lower or upper bound.
   */
  function BlockedMoves(p: Params): nat
  {
    (if p.c < C_MIN + 0.05 then 1 else 0) + (if p.c > C_MAX - 0.05 then 1 else 0)
    + (if p.degree == DEGREE_MIN then 1 else 0) + (if p.degree == DEGREE_MAX then 1 else 0)
  }

  /** A point strictly inside the box on both axes, so that all four moves stay in bounds. */
  predicate Interior(p: Params)
  {
    C_MIN + 0.05 <= p.c <= C_MAX - 0.05 && DEGREE_MIN < p.degree < DEGREE_MAX
  }

  /**
   An in-bounds point has 4 neighbours less one per blocked move, so between
   2 and 4, and exactly 4 when it is interior.
   */
  lemma NeighbourCount(p: Params)
    requires InBounds(p)
    ensures |Neighbours(p)| == 4 - BlockedMoves(p)
    ensures 2 <= |Neighbours(p)| <= 4
    ensures |Neighbours(p)| == 4 <==> Interior(p)
  {
    NeighboursUnfold(p);
  }
}
