# Gridworld MDP solvers

This project models a 3x3 gridworld Markov decision process and its two
dynamic-programming solvers.

- **The grid.** Cells are (row, column) pairs with row 0 at the top. The
  four moves are U, D, L and R. The intended move succeeds with
  probability 0.8. Each of its two perpendicular moves happens with
  probability 0.1. A move that would leave the grid leaves the agent where
  it is.
- **Rewards.** The start cell (0, 0) has the parameter reward `r`. The
  goal (0, 2) is the only terminal cell and has reward 10. Every other
  cell has reward -1. The discount is 0.99.
- **The backup.** The backup of a cell under an action is the sum, over
  its outcomes, of `prob * (reward(cell) + 0.99 * V(next))`. The reward is
  that of the cell being left.
- **Value iteration** (`main.py`). It runs synchronous sweeps: every
  non-terminal cell gets its best backup computed from the previous table,
  and the policy records the action achieving it. It stops after the
  first sweep whose largest change is below the threshold (0.0001 by
  default, main.py:49; `ValueIterationSolver.DEFAULT_THRESHOLD`).
- **Policy iteration** (`policy.py`). It alternates two steps:
  - policy evaluation: synchronous sweeps of the current policy, starting
    from the zero table, until the largest change is below 0.0001;
  - greedy improvement: a new policy holding, for each non-terminal cell,
    the first action with the largest backup.

  It stops once improvement returns the policy it was given.

Argmax ties go to the first action in the fixed order U, D, L, R, because
the source replaces the best action only on a strictly larger backup. Both
solvers try actions in this same order: both files iterate the one list
`['U', 'D', 'L', 'R']`.

Value iteration leaves the terminal cell's policy entry at its initial
`U`. Improvement gives the terminal cell no entry at all. The model keeps
both behaviours.

## Structure

| module (file) | contents |
|---|---|
| `Grid` (`grid.dfy`) | cells, moves, perpendiculars, boundary reflection, the transition distribution |
| `RewardModel` (`rewards.dfy`) | the reward table built from `r`, the start, the goal, the terminal list |
| `Bellman` (`bellman.dfy`) | value and policy tables, the backup `QValue`, greedy selection (`FirstMaximiser`, `Greedy`), the largest change between two tables |
| `ValueIterationSolver` (`value_iteration.dfy`) | one sweep as a fold over the cells (`FullSweep`), runs of sweeps, the imperative sweep loop and the outer loop |
| `PolicyIterationSolver` (`policy_iteration.dfy`) | evaluation sweeps (`FullEval`) and runs, `Improved`, rounds of policy iteration, the imperative loops |

### How the loops are specified

Every loop of the two solvers is a `method` with a `while` or `for` loop.
Two small loops of the shared code are pure values instead:
- the loop over the perpendicular moves in `get_next_states`
  (policy.py:40-46, main.py:39-45) is the three-element list built by
  `Grid.NextStates`;
- the dict comprehensions that build the initial tables (policy.py:51,
  main.py:50-51) are `Bellman.ZeroTable` and
  `ValueIterationSolver.InitialPolicy`.

Each solver loop is proved against a specification function:
- A sweep visits the cells in row-major order. The visits are folded into
  a value (`SweepPrefix`, `EvalPrefix`, `ImprovePrefix`). The loop
  invariant says the state after `i` cells equals the fold over the first
  `i` cells.
- The outer loops return a ghost trace of every sweep (`run`) or round
  (`rounds`).
  - Value iteration: `IsRun` says each entry is one full sweep of the
    entry before it.
  - Policy evaluation: `IsEvalRun` says the same for evaluation sweeps.
  - Policy iteration: `IsRounds` says each round's table is the
    evaluation of its policy (`IsEvaluation`), and each later policy is
    `Improved` from the table before it.

  Lemmas then state, for every entry of a trace, what the entry holds.

## Model

| member | source | states |
|---|---|---|
| Grid.Step | policy.py:32-37 | a move from a cell stays on the grid; the result is the cell itself exactly when the displaced cell is off the grid, and otherwise is the displaced cell |
| Grid.NextStates | policy.py:27-48 | (main.py:26-47 is an identical copy) three outcomes: the intended move with probability 0.8, then the two perpendicular moves in the listed order with probability 0.1 each; probabilities sum to 1; outcomes stay on the grid |
| Grid.PerpendicularsAreOrthogonal | policy.py:17-22 | (`Perpendiculars` is the table itself) each perpendicular of a move has zero dot product with it, is neither the move nor its opposite, and the two perpendiculars are opposite to each other |
| Grid.Opposite | policy.py:10-15 | (`ActionEffect` is the displacement table itself) the opposite move's displacement is the negation of the move's displacement |
| Grid.StatesAreGrid | policy.py:5-6 | the cell list has 9 distinct entries, entry k is (k / 3, k % 3), and a pair is listed exactly when it satisfies in_grid |
| Grid.StatesAreCells | policy.py:24-25 | (`InGrid` is in_grid itself, main.py:23-24 its copy; `IsCell` applies it to a pair) membership in the cell list is the in_grid test |
| Grid.StepIsNeighbour | policy.py:32-37 | one move either stays put or reaches a cell at distance one |
| Grid.OutcomesAreNeighbours | policy.py:39-46 | every outcome of an action is the cell itself or one of its neighbours |
| Grid.CornerUpReflects | policy.py:33-37 | moving U from (0, 0) reflects: 0.8 stays, the L drift stays with 0.1, the R drift reaches (0, 1) with 0.1 |
| RewardModel.Rewards | main.py:54-64 | (policy.py:90-100 builds the same table) the reward table has a key exactly for each cell; r at (0, 0), 10 at (0, 2), -1 elsewhere |
| RewardModel.TerminalIsGoal | policy.py:102 | the only terminal cell is (0, 2); it and the start are cells, and the start is not terminal |
| RewardModel.RewardsMonotone | main.py:54-64 | a larger start reward `r` makes no cell's reward smaller |
| Bellman.ZeroTable | policy.py:51 | the initial table has a key for every cell and is 0 everywhere |
| Bellman.NextStatesInTable | policy.py:60-61 | every outcome of a move from a cell can be looked up in a total table |
| Bellman.BackupSumSplit | policy.py:59-61 | the accumulated backup equals the probability mass times the reward plus the discount times the expected next value |
| Bellman.QValueRecentred | main.py:78-80 | (`QValue` is the backup of policy.py:59-61, 77-79 and main.py:78-80, summed left to right over the outcomes) a backup equals the source cell's reward plus 0.99 times the expected next value, since the outcome probabilities sum to 1 |
| Bellman.BackupSumLocal | policy.py:59-61 | the backup depends only on the table entries of the outcome cells |
| Bellman.BackupSumMonotone | policy.py:59-61 | the backup sum does not decrease when the reward and the outcome cells' values do not decrease, since no probability is negative |
| Bellman.QValueMonotone | main.py:78-80 | the backup of an action does not decrease when the source cell's reward and every cell's value do not decrease |
| Bellman.Index | main.py:77 | every action has a position in the action order |
| Bellman.FirstMaximiserUnique | main.py:81-83 | at most one action is the first maximiser of the backup |
| Bellman.GreedyUpToIsFirstMaximiser | main.py:77-83 | (`GreedyUpTo` is the strict-`>` scan over the first n actions) after scanning the first n actions with the strict comparison, the kept action is among them, its backup is the largest of them, and every earlier action's backup is strictly smaller |
| Bellman.ScanIsFirstMaximiser | main.py:75-83 | the full scan picks the first maximiser of the backup |
| Bellman.Greedy | policy.py:74-83 | the greedy action is the first maximiser of the backup |
| Bellman.GreedyIsScan | policy.py:76-82 | the greedy action is the one the strict-comparison scan keeps |
| Bellman.GreedyCharacterised | policy.py:80-82 | an action is the greedy one if and only if it is the first maximiser |
| Bellman.Backup | policy.py:59-61 | the accumulation loop over outcomes computes the backup QValue |
| Bellman.BestAction | main.py:75-83 | the scan over actions returns the first maximiser and its backup; the `-inf` start and `None` seed are never returned |
| Bellman.MaxChangeIsLargest | main.py:86 | (`MaxChange` is the fold of `max(delta, abs(...))` over the swept cells) the delta bound is non-negative, at least every non-terminal cell's absolute change, and is 0 or attained at some such cell |
| Bellman.MaxChangeLocal | main.py:86 | the delta depends only on the entries of the cells swept |
| Bellman.MaxChangeBelow | main.py:88 | the delta is below the threshold if and only if every non-terminal cell changed by less than the threshold |
| Bellman.SweepChangeBelow | policy.py:63-65 | the same over the whole grid: delta below theta if and only if every non-terminal cell changed by less than theta |
| ValueIterationSolver.InitialPolicy | main.py:51 | the initial policy holds U at every cell |
| ValueIterationSolver.SweepPrefix | main.py:71-86 | the fold over part of a sweep keeps both tables total |
| ValueIterationSolver.SweepPrefixExtend | main.py:71 | extending the visited cells by one applies one visit to the partial sweep |
| ValueIterationSolver.FullSweep | main.py:69-87 | a full sweep keeps both tables total |
| ValueIterationSolver.SweepKeeps | main.py:72-73 | terminal and unvisited cells keep their value and policy entry |
| ValueIterationSolver.SweepWrites | main.py:84-85 | every visited non-terminal cell holds its best backup and its greedy action |
| ValueIterationSolver.SweepDelta | main.py:86 | the sweep's delta is the largest absolute change over the non-terminal cells swept |
| ValueIterationSolver.SweepIsOptimalBackup | main.py:69-87 | after a sweep a terminal cell is untouched; any other cell holds the backup of its new action computed from the previous table, no action scores higher, and the action is the first maximiser; delta is the largest change |
| ValueIterationSolver.RunDeterministic | main.py:68-89 | two runs from the same inputs agree wherever both are defined |
| ValueIterationSolver.RunExtend | main.py:87 | a run extended by one sweep of its last entry is a run |
| ValueIterationSolver.RunEntriesTotal | main.py:70 | every entry of a run has total tables |
| ValueIterationSolver.TerminalFrozen | main.py:72-73 | after any number of sweeps the goal still has value 0 and policy entry U |
| ValueIterationSolver.SweepsMonotone | main.py:68-87 | for two reward tables, the one nowhere smaller gives, after every number of sweeps k, a table nowhere smaller |
| ValueIterationSolver.RunMonotone | main.py:49-87 | raising `r` lowers no cell's value after k sweeps, the start cell (0, 0) included |
| ValueIterationSolver.SweepResult | main.py:75-86 | after sweep k, each non-terminal cell holds the first-maximiser action for the table of sweep k-1 and that action's backup; delta is the largest change between the two tables |
| ValueIterationSolver.VisitCell | main.py:72-86 | one iteration of the cell loop is one visit of the sweep fold |
| ValueIterationSolver.Sweep | main.py:69-87 | the cell loop computes exactly the full sweep of the previous table |
| ValueIterationSolver.SweepRun | main.py:69-87 | one sweep extends the run by exactly its result |
| ValueIterationSolver.IterateSweeps | main.py:68-89 | the result is the last entry of a run; it is reported converged if and only if at least one sweep ran and the last sweep's delta is below the threshold; every earlier sweep's delta was not; when not converged the budget ran out |
| ValueIterationSolver.ValueIteration | main.py:49-91 | as IterateSweeps for the reward table of `r`; in addition the goal keeps value 0 and policy entry U |
| PolicyIterationSolver.EvalPrefix | policy.py:55-63 | the fold over part of an evaluation sweep keeps the table total |
| PolicyIterationSolver.EvalPrefixExtend | policy.py:55 | extending the visited cells by one applies one evaluation visit |
| PolicyIterationSolver.FullEval | policy.py:53-64 | a full evaluation sweep keeps the table total |
| PolicyIterationSolver.EvalKeeps | policy.py:56-57 | terminal and unvisited cells keep their value |
| PolicyIterationSolver.EvalWrites | policy.py:58-62 | every visited non-terminal cell holds its backup under the policy's action |
| PolicyIterationSolver.EvalDelta | policy.py:63 | the evaluation delta is the largest change over the non-terminal cells swept |
| PolicyIterationSolver.EvalIsPolicyBackup | policy.py:53-64 | an evaluation sweep leaves terminal cells alone, gives each other cell the backup of the policy's action computed from the previous table, and its delta is the largest change |
| PolicyIterationSolver.EvalRunDeterministic | policy.py:52-66 | two evaluation runs of one policy agree wherever both are defined |
| PolicyIterationSolver.EvalRunExtend | policy.py:64 | an evaluation run extended by one sweep of its last entry is a run |
| PolicyIterationSolver.EvalRunTotal | policy.py:54 | every entry of an evaluation run is a total table |
| PolicyIterationSolver.EvalTerminalFrozen | policy.py:56-57 | the terminal cell's value stays 0 through every evaluation sweep |
| PolicyIterationSolver.EvalResult | policy.py:58-63 | after evaluation sweep k each non-terminal cell holds the backup of the policy's action computed from table k-1; delta is the largest change |
| PolicyIterationSolver.EvalSweepsMonotone | policy.py:52-64 | evaluating one fixed policy against a reward table nowhere smaller gives, after every number of sweeps k, a table nowhere smaller |
| PolicyIterationSolver.EvalRunMonotone | policy.py:50-64 | for a fixed policy, raising `r` lowers no cell's value after k evaluation sweeps, the start cell (0, 0) included |
| PolicyIterationSolver.EvaluationUnique | policy.py:50-67 | evaluating a policy has at most one result |
| PolicyIterationSolver.NoEvaluationWithin | policy.py:65-66 | a run whose every delta stays at or above theta for the whole budget shows evaluation does not stop within that budget |
| PolicyIterationSolver.EvalCell | policy.py:56-63 | one iteration of the evaluation cell loop is one evaluation visit |
| PolicyIterationSolver.EvalSweep | policy.py:53-64 | the evaluation cell loop computes exactly the full evaluation sweep |
| PolicyIterationSolver.EvalSweepRun | policy.py:53-64 | one evaluation sweep extends the run by exactly its result |
| PolicyIterationSolver.PolicyEvaluation | policy.py:50-67 | the result is the last entry of an evaluation run from the zero table; it converged if and only if that run stops at its first sweep with delta below theta; otherwise every sweep of the budget had delta at least theta |
| PolicyIterationSolver.ImprovePrefixExtend | policy.py:71 | extending the visited cells by one applies one improvement visit |
| PolicyIterationSolver.ImprovePrefixContents | policy.py:70-83 | the partial improved policy has a key exactly for the visited non-terminal cells, each holding its chosen action |
| PolicyIterationSolver.ImprovedIsGreedy | policy.py:69-84 | (`Improved` is the specification of policy_improvement) the improved policy has a key exactly for the non-terminal cells, and each entry is the first maximiser of the backup |
| PolicyIterationSolver.ImprovedDiffers | policy.py:72-73 | improvement never returns a policy that has an entry for a terminal cell |
| PolicyIterationSolver.ImproveCell | policy.py:72-83 | one iteration of the improvement cell loop is one improvement visit |
| PolicyIterationSolver.PolicyImprovement | policy.py:69-84 | the improvement loop computes exactly the improved policy |
| PolicyIterationSolver.AllEvaluatedExtend | policy.py:106 | recording an evaluated round keeps every round evaluated |
| PolicyIterationSolver.ImprovementChainExtend | policy.py:107-109 | recording the improved policy keeps each round's policy the improvement of the table before it |
| PolicyIterationSolver.RoundsExtend | policy.py:105-109 | recording the next policy with its evaluation extends the rounds |
| PolicyIterationSolver.PoliciesChangeExtend | policy.py:108 | a round whose policy differs from the previous one keeps every consecutive pair of policies distinct |
| PolicyIterationSolver.PolicyRound | policy.py:106-109 | one round keeps the loop's state: it is stable exactly when improvement returns the evaluated policy, or stuck when that policy's evaluation does not converge |
| PolicyIterationSolver.IterateRounds | policy.py:104-110 | the loop ends stable, stuck, or with the round budget used up, its state as PolicyRound describes |
| PolicyIterationSolver.StableResult | policy.py:108-111 | when stable, the result is the last round's policy and table, improvement leaves the policy unchanged, and at least two rounds ran |
| PolicyIterationSolver.PolicyIteration | policy.py:86-111 | rounds start from the given policy; each table is its policy's evaluation; each next policy is the improvement of the previous table and differs from it; the returned policy is the one the next round would evaluate, and after at least one round V is the last table and the result is stable if and only if that policy equals the last round's; when stable the policy is greedy for its own evaluation and has no terminal entry; when not stable the round budget ran out or the next policy's evaluation does not converge within the sweep budget |

## Left out

- The `print_policy` and `print_values` helpers and the `__main__` blocks (policy.py:113-133, main.py:93-113) only print. No model.
- The initial policy of policy iteration is drawn with `random.choice` (policy.py:88). The model takes it as a parameter and requires a total policy.
- Floating point: values, probabilities, the discount and the thresholds are exact reals. Rounding in the accumulated backup sums is not modelled.
- The parameter `r` is a real number. The source accepts any Python number.
- The unbounded loops (`while True` at main.py:68 and policy.py:52, `while not is_policy_stable` at policy.py:105) have no termination argument in the source. Each model loop takes a budget (`maxSweeps`, `maxRounds`). Its flag (`converged`, `stable`) holds if and only if the source's own stopping test held at the end; when it does not hold, the budget ran out (or, in policy iteration, an evaluation did not converge within its budget).
- ValueIterationSolver.ValueIteration: convergence of value iteration is not proved. The discounted sweep is a contraction, so the source's loop ends under exact arithmetic, but the model only states what happens within the budget.
- ValueIterationSolver.ValueIteration: monotonicity in `r` is proved sweep by sweep (`RunMonotone`, and `EvalRunMonotone` for evaluation), not for the returned tables, because two runs with different `r` may stop after different numbers of sweeps. The concrete outcomes for particular values of `r` (for large `r` the start cell picks a move into the wall, which keeps it at (0, 0); for negative `r` it heads for the goal) are not proved either: they are facts about the converged tables, which the model leaves to the budgeted loop.
- PolicyIterationSolver.PolicyIteration: termination of the round loop and optimality of the stable policy are not proved. The result is proved greedy for its own evaluation. It is not compared with value iteration's result.
- The `numpy` import is unused by the core. No model.
- Greedy selection and the backups assume every cell has a reward (`RewardsCover`). The source only looks up the rewards of the cells it sweeps, which are all the cells.
