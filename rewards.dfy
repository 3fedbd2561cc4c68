/** The reward table and terminal set that both solvers build afresh from
    the start-cell reward `r`. */
module RewardModel {
  import opened Grid

  /** The start cell, whose reward is the parameter `r`. */
  const START: State := (0, 0)

  /** The goal cell: terminal, with reward 10. */
  const GOAL: State := (0, 2)

  /** The terminal cells, as a list (membership is what the solvers test). */
  const TERMINAL_STATES: seq<State> := [GOAL]

  /** The reward of every cell: `r` at the start, 10 at the goal, -1 elsewhere. */
  function Rewards(r: real): (rewards: map<State, real>)
    ensures forall s :: s in rewards <==> IsCell(s)
    ensures START in rewards && rewards[START] == r
    ensures GOAL in rewards && rewards[GOAL] == 10.0
    ensures forall s :: s in rewards && s != START && s != GOAL ==> rewards[s] == -1.0
  {
    StatesAreCells();
    map[(0, 0) := r, (0, 1) := -1.0, (0, 2) := 10.0,
        (1, 0) := -1.0, (1, 1) := -1.0, (1, 2) := -1.0,
        (2, 0) := -1.0, (2, 1) := -1.0, (2, 2) := -1.0]
  }

  /** Raising the start-cell reward raises no cell's reward. */
  lemma RewardsMonotone(r1: real, r2: real)
    requires r1 <= r2
    ensures forall s :: IsCell(s) ==> Rewards(r1)[s] <= Rewards(r2)[s]
  {
  }

  /** The goal is the only terminal cell, and it lies on the grid. */
  lemma TerminalIsGoal()
    ensures forall s :: s in TERMINAL_STATES <==> s == GOAL
    ensures IsCell(GOAL) && IsCell(START) && START !in TERMINAL_STATES
  {
  }
}
