/** The 3x3 gridworld: its cells, its four moves and the stochastic
    transition model in which the intended move succeeds with
    probability 0.8 and each perpendicular move happens with
    probability 0.1. Shared, unchanged, by both solvers. */
module Grid {

  /** A cell as a (row, column) pair of coordinates. */
  type State = (int, int)

  datatype Action = U | D | L | R

  /** One entry of a transition distribution: a resulting cell and its probability. */
  datatype Outcome = Outcome(next: State, prob: real)

  const GRID_SIZE: int := 3

  /** Every cell of the grid, in row-major order: the order both solvers sweep in. */
  const STATES: seq<State> :=
    [(0, 0), (0, 1), (0, 2), (1, 0), (1, 1), (1, 2), (2, 0), (2, 1), (2, 2)]

  /** The fixed order in which actions are tried; ties go to the earliest. */
  const ACTIONS: seq<Action> := [U, D, L, R]

  const DISCOUNT: real := 0.99

  const INTENDED_PROB: real := 0.8
  const DRIFT_PROB: real := 0.1

  /** The displacement (row, column) of a move. */
  function ActionEffect(a: Action): (int, int)
  {
    match a
    case U => (-1, 0)
    case D => (1, 0)
    case L => (0, -1)
    case R => (0, 1)
  }

  /** The two moves an agent may drift into when it intends `a`. */
  function Perpendiculars(a: Action): seq<Action>
  {
    match a
    case U => [L, R]
    case D => [L, R]
    case L => [U, D]
    case R => [U, D]
  }

  /** The move in the opposite direction; used to state which moves the
      perpendiculars exclude. */
  function Opposite(a: Action): (b: Action)
    ensures ActionEffect(b).0 == -ActionEffect(a).0 && ActionEffect(b).1 == -ActionEffect(a).1
  {
    match a
    case U => D
    case D => U
    case L => R
    case R => L
  }

  function Dot(p: (int, int), q: (int, int)): int
  {
    p.0 * q.0 + p.1 * q.1
  }

  predicate InGrid(x: int, y: int)
  {
    0 <= x < GRID_SIZE && 0 <= y < GRID_SIZE
  }

  /** A cell of the grid. */
  predicate IsCell(s: State)
  {
    InGrid(s.0, s.1)
  }

  /** STATES lists exactly the cells that satisfy InGrid, each once, in row-major order. */
  lemma StatesAreGrid()
    ensures |STATES| == GRID_SIZE * GRID_SIZE
    ensures forall s: State :: s in STATES <==> IsCell(s)
    ensures forall k :: 0 <= k < |STATES| ==> STATES[k] == (k / GRID_SIZE, k % GRID_SIZE)
    ensures forall j, k :: 0 <= j < k < |STATES| ==> STATES[j] != STATES[k]
  {
    forall s: State | IsCell(s)
      ensures s in STATES
    {
      assert s == STATES[3 * s.0 + s.1];
    }
  }

  /** Membership in STATES is being a cell of the grid. */
  lemma StatesAreCells()
    ensures forall s: State :: s in STATES <==> IsCell(s)
  {
    StatesAreGrid();
  }

  /** The cell one move `a` leads to from `s`: the displaced cell when it
      lies on the grid, and `s` itself when the move would leave the grid. */
  function Step(s: State, a: Action): (t: State)
    ensures IsCell(s) ==> IsCell(t)
    ensures t == s <==> !InGrid(s.0 + ActionEffect(a).0, s.1 + ActionEffect(a).1)
    ensures t != s ==> t == (s.0 + ActionEffect(a).0, s.1 + ActionEffect(a).1)
  {
    var (di, dj) := ActionEffect(a);
    var (ni, nj) := (s.0 + di, s.1 + dj);
    if InGrid(ni, nj) then (ni, nj) else s
  }

  /** The sum of the probabilities of a list of outcomes, accumulated left to right. */
  function ProbSum(outs: seq<Outcome>): real
  {
    if outs == [] then 0.0 else ProbSum(outs[..|outs| - 1]) + outs[|outs| - 1].prob
  }

  /** The distribution over resulting cells when `a` is intended in `s`:
      the intended move first, then the two perpendicular moves in the
      order Perpendiculars lists them; entries that land on the same cell
      are kept apart, not merged. */
  function NextStates(s: State, a: Action): (r: seq<Outcome>)
    ensures |r| == 3
    ensures r[0] == Outcome(Step(s, a), INTENDED_PROB)
    ensures forall k :: 0 <= k < 2 ==> r[k + 1] == Outcome(Step(s, Perpendiculars(a)[k]), DRIFT_PROB)
    ensures ProbSum(r) == 1.0
    ensures IsCell(s) ==> forall o :: o in r ==> IsCell(o.next)
  {
    var perps := Perpendiculars(a);
    var r := [Outcome(Step(s, a), INTENDED_PROB),
              Outcome(Step(s, perps[0]), DRIFT_PROB),
              Outcome(Step(s, perps[1]), DRIFT_PROB)];
    assert r[..2][..1] == r[..1] && r[..1][..0] == [];
    assert ProbSum(r[..1]) == INTENDED_PROB;
    assert ProbSum(r[..2]) == INTENDED_PROB + DRIFT_PROB;
    r
  }

  /** Each perpendicular is orthogonal to the intended move, so it is neither
      the move itself nor its opposite; the two perpendiculars are opposite
      to each other. */
  lemma PerpendicularsAreOrthogonal(a: Action)
    ensures |Perpendiculars(a)| == 2
    ensures forall k :: 0 <= k < 2 ==>
      var p := Perpendiculars(a)[k];
      Dot(ActionEffect(a), ActionEffect(p)) == 0 && p != a && p != Opposite(a)
    ensures Perpendiculars(a)[1] == Opposite(Perpendiculars(a)[0])
  {
  }

  /** The squared distance between two cells. */
  function SquaredDistance(p: State, q: State): int
  {
    (p.0 - q.0) * (p.0 - q.0) + (p.1 - q.1) * (p.1 - q.1)
  }

  /** One move stays put or reaches a cell at distance one. */
  lemma StepIsNeighbour(s: State, a: Action)
    ensures Step(s, a) == s || SquaredDistance(Step(s, a), s) == 1
  {
  }

  /** Every outcome is the source cell or one of its grid neighbours. */
  lemma OutcomesAreNeighbours(s: State, a: Action)
    ensures forall o :: o in NextStates(s, a) ==> o.next == s || SquaredDistance(o.next, s) == 1
  {
    var outs := NextStates(s, a);
    var perps := Perpendiculars(a);
    StepIsNeighbour(s, a);
    StepIsNeighbour(s, perps[0]);
    StepIsNeighbour(s, perps[1]);
    assert outs == [outs[0], outs[1], outs[2]];
  }

  /** Boundary reflection at the top-left corner: moving up from (0, 0) stays put. */
  lemma CornerUpReflects()
    ensures NextStates((0, 0), U)[0] == Outcome((0, 0), 0.8)
    ensures NextStates((0, 0), U)[1] == Outcome((0, 0), 0.1)
    ensures NextStates((0, 0), U)[2] == Outcome((0, 1), 0.1)
  {
  }
}
