# Random-restart hill climbing for SVM hyperparameters — a Dafny model

The program tunes two hyperparameters of a polynomial-kernel SVM: the
regularisation strength `C` and the kernel `degree`. It uses random-restart,
first-improvement hill climbing, and its objective is accuracy on a held-out
test set. This project models the search engine of `main.py`:

- **the state record** (`criar_estado`, `avaliar_estado`). In the model this is
  the class `SearchState.State`. Its point is `const params`, because it never
  changes after creation. Its score is `var value: Option<nat>`, which is
  `None` until `Evaluate` writes it.
- **neighbour generation** (`gerar_estados_vizinhos`). The method
  `NeighbourGeneration.GenerateNeighbours` keeps the source's two `for` loops
  over the step lists `[-0.05, 0.05]` and `[-1, 1]`, one loop in each of
  `CMoves` and `DegreeMoves`, and concatenates their results. It is proved against the
  pure function `Neighbours`. For every point in the box, that function is in
  turn proved equal to an independent reference definition: the four
  candidate moves, filtered to the box `[0.5, 250] x [1, 15]`. Outside the box
  the two differ, because the source range-checks only the moved coordinate.
- **the climb and the restart driver** (`random_restart_hill_climbing`). The
  methods `HillClimbing.Climb` (the `while True` loop with its best-so-far
  update) and `HillClimbing.ImprovingNeighbour` (the inner `for … break`) are
  proved against spec functions. `Step` gives the first strictly improving
  neighbour, `ClimbPath` the sequence of states that are current during one
  restart, and `TrackPath` the best-so-far rule folded over that sequence.
  `HillClimbing.RandomRestartHillClimbing` (the outer `for`) is proved to
  compute `Search`. Lemmas about `Search` and `Visited` state what the
  returned best means.

Modelling choices:

- **`C` is a Dafny `real`.** So `C ± 0.05` is exact.
- **The score is a count.** The objective is an `Evaluator`: a deterministic
  function `score: Params -> nat` that gives the number of correctly
  classified test examples, together with the test-set size `testSize`, and
  `Bounded()` says `score(p) <= testSize`. The source's accuracy is
  `score / testSize`. The test set is fixed, so comparing accuracies
  (`>` at main.py:79 and main.py:93) is the same as comparing counts, and the
  starting best `0.0` is the count `0`.
- **The train/test data is bound into the evaluator.** The source reads it
  from module globals. Here it is passed in as a parameter.
- **The random starting points are an input sequence `starts`.** It has one
  element per restart, so `|starts|` is `num_reinicios`. A non-positive count
  is the empty sequence, which gives `NoResult`, i.e. `(None, None, 0.0)`.
  The search itself needs nothing of the starts. The bounds lemmas assume
  `RandomStart`: `C` in `[0.5, 250]` and `degree` in `[1, 14]`, because
  `np.random.randint(1, 15)` excludes 15. A degree of 15 is therefore reached
  only as a neighbour.
- **`melhor_C, melhor_degree, melhor_acuracia` become `SearchResult(c, degree, accuracy)`.**
- **Re-evaluation is kept.** A neighbour that has been adopted is evaluated
  again at the top of the next climb iteration (main.py:76), as in the
  source. The evaluator is deterministic, so this rewrites the same score.

## Model

| member | source | states |
|---|---|---|
| SearchState.State.constructor | main.py:10-11 | a new state holds the given point and has no score (`value == None`) |
| SearchState.State.Evaluate | main.py:47-57 | the state's score field becomes the objective's score of its own point and nothing else changes |
| NeighbourGeneration.GenerateNeighbours | main.py:14-44 | returns fresh, pairwise distinct, unevaluated states whose points are `Neighbours(current.params)` in generation order, and leaves the input state's score unchanged |
| NeighbourGeneration.CMoves | main.py:19-28 | the C loop returns fresh, distinct, unevaluated states at C-0.05 then C+0.05 with the degree kept, each only when the new C is in `[0.5, 250]` |
| NeighbourGeneration.DegreeMoves | main.py:31-42 | the degree loop returns fresh, distinct, unevaluated states at degree-1 then degree+1 with C kept, each only when the new degree is in `[1, 15]` |
| NeighbourGeneration.NeighboursUnfold | main.py:19-42 | the neighbour list is the C-0.05, C+0.05, degree-1, degree+1 moves in that order, each present only when the moved coordinate is in range |
| NeighbourGeneration.NeighboursAreFilteredCandidates | main.py:19-42 | for an in-bounds point, the neighbours are exactly the four candidate moves with the out-of-bounds ones dropped, in the original order |
| NeighbourGeneration.NeighboursInBounds | main.py:19-42 | every neighbour of an in-bounds point satisfies `0.5 <= C <= 250` and `1 <= degree <= 15` |
| NeighbourGeneration.NeighboursAreOneAxisSteps | main.py:19-42 | every neighbour differs from its origin in exactly one coordinate: C by ±0.05 with degree kept, or degree by ±1 with C kept |
| NeighbourGeneration.NeighbourCount | main.py:14-44 | an in-bounds point has `4 - BlockedMoves(p)` neighbours, so between 2 and 4, and exactly 4 if and only if it is interior on both axes |
| HillClimbing.FirstImprovement | main.py:91-97 | returns the least index whose score strictly exceeds the current score, or `None` when no neighbour exceeds it |
| HillClimbing.Step | main.py:87-101 | a move is to the first neighbour, in generation order, with strictly higher score: every earlier neighbour scores at most the current score; there is no move exactly at a local optimum |
| HillClimbing.ClimbPath | main.py:74-101 | one restart's current states start at the start point, each next one is the first improving neighbour of the previous, the last is a local optimum, and there are at most `testSize - score(start) + 1` of them |
| HillClimbing.ClimbPathAscends | main.py:93-97 | scores along one restart's current states strictly increase |
| HillClimbing.ClimbPathInBounds | main.py:87-95 | a restart begun in the box only ever has in-box current states |
| HillClimbing.ImprovingNeighbour | main.py:87-97 | evaluates neighbours in order and returns the first strictly improving one (carrying its score), or `null` exactly at a local optimum |
| HillClimbing.Climb | main.py:67-101 | one restart offers each current state, in order, to the running best, and returns `TrackPath(best, ClimbPath(start))` |
| HillClimbing.RandomRestartHillClimbing | main.py:60-104 | the returned `(C, degree, accuracy)` is `Search(starts)`: the restarts run one after the other from `NoResult` |
| HillClimbing.SearchTracksVisited | main.py:65-101 | the search result is the best-so-far rule applied to every current state of every restart in visiting order, starting from `(None, None, 0)` |
| HillClimbing.TrackPathKeepsBest | main.py:79-84 | the running best never decreases and ends up at least every state's score. It is unchanged exactly when no state beats it. Otherwise it records the earliest state of maximal score. |
| HillClimbing.SearchBest | main.py:61-104 | the returned accuracy is at least the score of every state that was ever current. The result is `(None, None, 0)` exactly when all those scores are 0. Otherwise `(C, degree)` is the first current state that produced the returned score. |
| HillClimbing.VisitedInBounds | main.py:65-101 | when every restart starts at a legal random point, every current state of the search lies in the box |
| HillClimbing.SearchResultInBounds | main.py:60-104 | when the starts are legal, a returned `(C, degree)` lies in the box |

## Left out

- Fitting the SVC, predicting and `accuracy_score` (main.py:49-55) are calls into scikit-learn. They are replaced by the abstract deterministic `Evaluator`, whose score is bounded by the test-set size.
- An error raised by the classifier for some parameter pair propagates uncaught in the source. The evaluator here is total, so that failure path is not modelled.
- The random draws of the starting point (main.py:69-71) are not modelled. The starts are an input sequence instead.
- Dataset loading and the train/test split (main.py:106-117) are library I/O.
- The interactive loop is I/O and wall-clock time: the restart-count prompt with its `int` parse, the timing, the printing and the repeat question (main.py:119-153).
- `C` is modelled as an exact real, not as an IEEE double. Rounding drift of repeated `C ± 0.05` steps, and the effect of such drift on the bound checks, is floating-point numerics.
- The accuracy is modelled as a count of correct predictions, not as the fraction `count / testSize`. Comparisons agree because the test-set size is fixed.
- The end-to-end convergence scenario with the real-valued stub objective `1 - |C - 100| / 1000` is not modelled, because the objective here is integer-valued.
