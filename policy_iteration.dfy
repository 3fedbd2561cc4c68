/** Policy iteration: evaluate the current policy by synchronous sweeps,
    improve it greedily, and stop once improvement leaves it unchanged. */
module PolicyIterationSolver {
  import opened Grid
  import opened RewardModel
  import opened Bellman

  /** The threshold the evaluation of every round is run with. */
  const DEFAULT_THETA: real := 0.0001

  /** What an evaluation sweep carries from cell to cell: the table being
      written and the largest change so far. */
  datatype EvalState = EvalState(values: ValueTable, delta: real)

  /** The policy has an action for every non-terminal cell, which is all
      that evaluating it looks up. */
  ghost predicate CoversNonTerminal(policy: PolicyTable, terminals: seq<State>)
  {
    forall s :: IsCell(s) && s !in terminals ==> s in policy
  }

  /** The backup of every cell under the action `policy` fixes there. */
  ghost function PolicyBackupOf(V: ValueTable, policy: PolicyTable, rewards: map<State, real>): State -> real
    requires IsTable(V) && RewardsCover(rewards)
  {
    s => if IsCell(s) && s in policy then QValue(V, rewards, s, policy[s]) else 0.0
  }

  /** The evaluation state after visiting cell `s`, where `target` holds the
      backup of every cell: a terminal cell is skipped; otherwise `s` gets
      its backup, and the change at `s` joins the largest change so far. */
  function EvalVisit(V: ValueTable, target: State -> real, terminals: seq<State>, st: EvalState, s: State): EvalState
    requires IsTable(V) && IsCell(s)
  {
    if s in terminals then st
    else EvalState(st.values[s := target(s)], Max(st.delta, Abs(V[s] - target(s))))
  }

  /** The evaluation state after visiting the cells `ss` in order, starting
      from a copy of `V`. */
  function EvalPrefix(V: ValueTable, target: State -> real, terminals: seq<State>, ss: seq<State>): (st: EvalState)
    requires IsTable(V)
    requires forall s :: s in ss ==> IsCell(s)
    ensures IsTable(st.values)
  {
    if ss == [] then EvalState(V, 0.0)
    else EvalVisit(V, target, terminals, EvalPrefix(V, target, terminals, ss[..|ss| - 1]), ss[|ss| - 1])
  }

  /** Visiting one more cell extends the evaluation sweep by one EvalVisit. */
  lemma EvalPrefixExtend(V: ValueTable, target: State -> real, terminals: seq<State>, ss: seq<State>, i: nat)
    requires IsTable(V)
    requires forall s :: s in ss ==> IsCell(s)
    requires i < |ss|
    ensures EvalPrefix(V, target, terminals, ss[..i + 1])
         == EvalVisit(V, target, terminals, EvalPrefix(V, target, terminals, ss[..i]), ss[i])
  {
    assert ss[..i + 1][..i] == ss[..i];
  }

  /** One evaluation sweep of `policy` over the grid in row-major order;
      every backup reads `V` alone. */
  ghost function FullEval(V: ValueTable, policy: PolicyTable, rewards: map<State, real>, terminals: seq<State>)
    : (st: EvalState)
    requires IsTable(V) && RewardsCover(rewards)
    ensures IsTable(st.values)
  {
    StatesAreCells();
    EvalPrefix(V, PolicyBackupOf(V, policy, rewards), terminals, STATES)
  }

  /** Cells the sweep has not visited, and terminal cells, keep their value. */
  lemma {:induction false} EvalKeeps(V: ValueTable, target: State -> real, terminals: seq<State>, ss: seq<State>, t: State)
    requires IsTable(V)
    requires forall s :: s in ss ==> IsCell(s)
    requires IsCell(t) && (t !in ss || t in terminals)
    ensures EvalPrefix(V, target, terminals, ss).values[t] == V[t]
  {
    if ss != [] {
      var pre := ss[..|ss| - 1];
      assert t !in pre || t in terminals;
      EvalKeeps(V, target, terminals, pre, t);
    }
  }

  /** Every visited non-terminal cell holds its backup. */
  lemma {:induction false} EvalWrites(V: ValueTable, target: State -> real, terminals: seq<State>, ss: seq<State>, t: State)
    requires IsTable(V)
    requires forall s :: s in ss ==> IsCell(s)
    requires t in ss && t !in terminals
    ensures EvalPrefix(V, target, terminals, ss).values[t] == target(t)
  {
    var pre := ss[..|ss| - 1];
    if t != ss[|ss| - 1] {
      assert t in pre;
      EvalWrites(V, target, terminals, pre, t);
    }
  }

  /** The largest change an evaluation sweep records is MaxChange between `V`
      and the table it writes. */
  lemma {:induction false} EvalDelta(V: ValueTable, target: State -> real, terminals: seq<State>, ss: seq<State>)
    requires IsTable(V)
    requires forall s :: s in ss ==> IsCell(s)
    ensures var st := EvalPrefix(V, target, terminals, ss);
      st.delta == MaxChange(V, st.values, terminals, ss)
  {
    if ss != [] {
      var pre := ss[..|ss| - 1];
      var s := ss[|ss| - 1];
      EvalDelta(V, target, terminals, pre);
      var before := EvalPrefix(V, target, terminals, pre).values;
      var after := EvalPrefix(V, target, terminals, ss).values;
      forall u | u in pre
        ensures after[u] == before[u]
      {
        if u == s && u !in terminals {
          EvalWrites(V, target, terminals, pre, u);
        }
      }
      MaxChangeLocal(V, after, before, terminals, pre);
    }
  }

  /** An evaluation sweep is the Bellman expectation backup of `policy`:
      each non-terminal cell's new value is the backup of the action the
      policy fixes there, a terminal cell keeps its value, and the delta is
      the largest change over the non-terminal cells. */
  lemma EvalIsPolicyBackup(V: ValueTable, policy: PolicyTable, rewards: map<State, real>, terminals: seq<State>,
                           s: State)
    requires IsTable(V) && RewardsCover(rewards) && CoversNonTerminal(policy, terminals) && IsCell(s)
    ensures var st := FullEval(V, policy, rewards, terminals);
      && (if s in terminals then st.values[s] == V[s]
          else st.values[s] == QValue(V, rewards, s, policy[s]))
      && st.delta == SweepChange(V, st.values, terminals)
  {
    StatesAreCells();
    var target := PolicyBackupOf(V, policy, rewards);
    if s in terminals {
      EvalKeeps(V, target, terminals, STATES, s);
    } else {
      EvalWrites(V, target, terminals, STATES, s);
    }
    EvalDelta(V, target, terminals, STATES);
  }

  /** `next` is what one evaluation sweep of `policy` makes of `st`. */
  ghost predicate EvalStep(st: EvalState, next: EvalState, policy: PolicyTable, rewards: map<State, real>,
                           terminals: seq<State>)
  {
    && IsTable(st.values) && RewardsCover(rewards)
    && next == FullEval(st.values, policy, rewards, terminals)
  }

  /** A run of the evaluation of `policy`: it starts from the zero table and
      each entry is one evaluation sweep of the one before. */
  ghost predicate IsEvalRun(run: seq<EvalState>, policy: PolicyTable, rewards: map<State, real>, terminals: seq<State>)
  {
    && |run| >= 1
    && run[0] == EvalState(ZeroTable(), 0.0)
    && forall k :: 0 <= k < |run| - 1 ==> EvalStep(run[k], run[k + 1], policy, rewards, terminals)
  }

  /** An evaluation run is determined by its length. */
  lemma {:induction false} EvalRunDeterministic(a: seq<EvalState>, b: seq<EvalState>, policy: PolicyTable,
                                                rewards: map<State, real>, terminals: seq<State>, k: nat)
    requires IsEvalRun(a, policy, rewards, terminals) && IsEvalRun(b, policy, rewards, terminals)
    requires k < |a| && k < |b|
    ensures a[k] == b[k]
  {
    if k > 0 {
      var j: nat := k - 1;
      EvalRunDeterministic(a, b, policy, rewards, terminals, j);
      assert EvalStep(a[j], a[j + 1], policy, rewards, terminals);
      assert EvalStep(b[j], b[j + 1], policy, rewards, terminals);
    }
  }

  /** An evaluation run extended by one sweep of its last entry is a run. */
  lemma EvalRunExtend(run: seq<EvalState>, policy: PolicyTable, rewards: map<State, real>, terminals: seq<State>,
                      next: EvalState)
    requires IsEvalRun(run, policy, rewards, terminals)
    requires IsTable(run[|run| - 1].values) && RewardsCover(rewards)
    requires next == FullEval(run[|run| - 1].values, policy, rewards, terminals)
    ensures IsEvalRun(run + [next], policy, rewards, terminals)
  {
    var run' := run + [next];
    forall k | 0 <= k < |run'| - 1
      ensures EvalStep(run'[k], run'[k + 1], policy, rewards, terminals)
    {
      if k < |run| - 1 {
        assert EvalStep(run[k], run[k + 1], policy, rewards, terminals);
      }
    }
  }

  /** Every entry of an evaluation run is a total table. */
  lemma EvalRunTotal(run: seq<EvalState>, policy: PolicyTable, rewards: map<State, real>, terminals: seq<State>, k: nat)
    requires IsEvalRun(run, policy, rewards, terminals) && k < |run|
    ensures IsTable(run[k].values)
  {
    if k > 0 {
      assert EvalStep(run[k - 1], run[k], policy, rewards, terminals);
    }
  }

  /** Evaluation sweeps never touch a terminal cell: its value stays 0. */
  lemma {:induction false} EvalTerminalFrozen(run: seq<EvalState>, policy: PolicyTable, rewards: map<State, real>,
                                              terminals: seq<State>, k: nat, t: State)
    requires IsEvalRun(run, policy, rewards, terminals) && k < |run| && IsCell(t) && t in terminals
    requires CoversNonTerminal(policy, terminals)
    ensures t in run[k].values && run[k].values[t] == 0.0
  {
    if k > 0 {
      var j: nat := k - 1;
      EvalTerminalFrozen(run, policy, rewards, terminals, j, t);
      assert EvalStep(run[j], run[k], policy, rewards, terminals);
      EvalIsPolicyBackup(run[j].values, policy, rewards, terminals, t);
    }
  }

  /** After evaluation sweep `k`, each non-terminal cell holds the backup of
      the policy's action computed from the previous table, and the delta is
      the largest change between the two tables. */
  lemma EvalResult(run: seq<EvalState>, policy: PolicyTable, rewards: map<State, real>, terminals: seq<State>,
                   k: nat, s: State)
    requires IsEvalRun(run, policy, rewards, terminals) && 1 <= k < |run|
    requires CoversNonTerminal(policy, terminals) && IsCell(s) && s !in terminals
    ensures IsTable(run[k - 1].values) && IsTable(run[k].values) && RewardsCover(rewards) && s in policy
    ensures run[k].values[s] == QValue(run[k - 1].values, rewards, s, policy[s])
    ensures run[k].delta == SweepChange(run[k - 1].values, run[k].values, terminals)
  {
    var j: nat := k - 1;
    assert EvalStep(run[j], run[k], policy, rewards, terminals);
    EvalIsPolicyBackup(run[j].values, policy, rewards, terminals, s);
  }

  /** Sweep by sweep, evaluating one fixed policy is monotone in the rewards:
      with rewards that are nowhere smaller, every cell's value after `k`
      sweeps is no smaller. */
  lemma {:induction false} EvalSweepsMonotone(a: seq<EvalState>, b: seq<EvalState>, policy: PolicyTable,
                                              rewards1: map<State, real>, rewards2: map<State, real>,
                                              terminals: seq<State>, k: nat)
    requires IsEvalRun(a, policy, rewards1, terminals) && IsEvalRun(b, policy, rewards2, terminals)
    requires CoversNonTerminal(policy, terminals) && RewardsCover(rewards1) && RewardsCover(rewards2)
    requires forall s :: IsCell(s) ==> rewards1[s] <= rewards2[s]
    requires k < |a| && k < |b|
    ensures IsTable(a[k].values) && IsTable(b[k].values)
    ensures forall s :: IsCell(s) ==> a[k].values[s] <= b[k].values[s]
  {
    EvalRunTotal(a, policy, rewards1, terminals, k);
    EvalRunTotal(b, policy, rewards2, terminals, k);
    if k > 0 {
      var j: nat := k - 1;
      EvalSweepsMonotone(a, b, policy, rewards1, rewards2, terminals, j);
      forall s | IsCell(s)
        ensures a[k].values[s] <= b[k].values[s]
      {
        if s in terminals {
          EvalTerminalFrozen(a, policy, rewards1, terminals, k, s);
          EvalTerminalFrozen(b, policy, rewards2, terminals, k, s);
        } else {
          EvalResult(a, policy, rewards1, terminals, k, s);
          EvalResult(b, policy, rewards2, terminals, k, s);
          QValueMonotone(a[j].values, b[j].values, rewards1, rewards2, s, policy[s]);
        }
      }
    }
  }

  /** Raising the start-cell reward `r` lowers no cell's value after any
      number of sweeps evaluating a fixed policy, the start cell's included. */
  lemma EvalRunMonotone(r1: real, r2: real, policy: PolicyTable, a: seq<EvalState>, b: seq<EvalState>, k: nat)
    requires r1 <= r2 && CoversNonTerminal(policy, TERMINAL_STATES)
    requires IsEvalRun(a, policy, Rewards(r1), TERMINAL_STATES) && IsEvalRun(b, policy, Rewards(r2), TERMINAL_STATES)
    requires k < |a| && k < |b|
    ensures IsTable(a[k].values) && IsTable(b[k].values)
    ensures forall s :: IsCell(s) ==> a[k].values[s] <= b[k].values[s]
  {
    RewardsMonotone(r1, r2);
    EvalSweepsMonotone(a, b, policy, Rewards(r1), Rewards(r2), TERMINAL_STATES, k);
  }

  /** `V` is what evaluating `policy` returns: the table after the first
      sweep whose delta is below `theta`. */
  ghost predicate IsEvaluation(policy: PolicyTable, rewards: map<State, real>, terminals: seq<State>, theta: real,
                               V: ValueTable)
  {
    exists run: seq<EvalState> :: IsConvergedRun(run, policy, rewards, terminals, theta) && V == run[|run| - 1].values
  }

  /** An evaluation run that stops at its first sweep with delta below `theta`. */
  ghost predicate IsConvergedRun(run: seq<EvalState>, policy: PolicyTable, rewards: map<State, real>,
                                 terminals: seq<State>, theta: real)
  {
    && IsEvalRun(run, policy, rewards, terminals)
    && |run| >= 2
    && run[|run| - 1].delta < theta
    && forall k :: 1 <= k < |run| - 1 ==> run[k].delta >= theta
  }

  /** Evaluation is a function of the policy: a policy has at most one evaluation. */
  lemma EvaluationUnique(policy: PolicyTable, rewards: map<State, real>, terminals: seq<State>, theta: real,
                         V: ValueTable, W: ValueTable)
    requires IsEvaluation(policy, rewards, terminals, theta, V)
    requires IsEvaluation(policy, rewards, terminals, theta, W)
    ensures V == W
  {
    var a: seq<EvalState> :| IsConvergedRun(a, policy, rewards, terminals, theta) && V == a[|a| - 1].values;
    var b: seq<EvalState> :| IsConvergedRun(b, policy, rewards, terminals, theta) && W == b[|b| - 1].values;
    if |a| < |b| {
      EvalRunDeterministic(a, b, policy, rewards, terminals, |a| - 1);
      assert false;
    } else if |b| < |a| {
      EvalRunDeterministic(a, b, policy, rewards, terminals, |b| - 1);
      assert false;
    } else {
      EvalRunDeterministic(a, b, policy, rewards, terminals, |a| - 1);
    }
  }

  /** Evaluating `policy` converges within `maxSweeps` sweeps. */
  ghost predicate IsEvaluationWithin(policy: PolicyTable, rewards: map<State, real>, terminals: seq<State>,
                                     theta: real, maxSweeps: nat)
  {
    exists run: seq<EvalState> :: IsConvergedRun(run, policy, rewards, terminals, theta) && |run| - 1 <= maxSweeps
  }

  /** A run of `maxSweeps` sweeps whose every delta is at least `theta`
      shows that evaluation does not converge within that budget. */
  lemma NoEvaluationWithin(policy: PolicyTable, rewards: map<State, real>, terminals: seq<State>, theta: real,
                           maxSweeps: nat, run: seq<EvalState>)
    requires IsEvalRun(run, policy, rewards, terminals) && |run| - 1 == maxSweeps
    requires forall k :: 1 <= k < |run| ==> run[k].delta >= theta
    ensures !IsEvaluationWithin(policy, rewards, terminals, theta, maxSweeps)
  {
    if IsEvaluationWithin(policy, rewards, terminals, theta, maxSweeps) {
      var a: seq<EvalState> :| IsConvergedRun(a, policy, rewards, terminals, theta) && |a| - 1 <= maxSweeps;
      var k: nat := |a| - 1;
      EvalRunDeterministic(a, run, policy, rewards, terminals, k);
    }
  }

  /** The body of the evaluation loop for cell `s`: skips a terminal cell,
      and otherwise writes the backup of the policy's action at `s` computed
      from `V` and updates the largest change. */
  method EvalCell(V: ValueTable, policy: PolicyTable, rewards: map<State, real>, terminals: seq<State>,
                  values: ValueTable, delta: real, s: State)
    returns (values': ValueTable, delta': real)
    requires IsTable(V) && RewardsCover(rewards) && CoversNonTerminal(policy, terminals) && IsCell(s)
    ensures EvalState(values', delta')
         == EvalVisit(V, PolicyBackupOf(V, policy, rewards), terminals, EvalState(values, delta), s)
  {
    values', delta' := values, delta;
    if s in terminals {
      return;
    }
    var a := policy[s];
    var value := Backup(V, rewards, s, a);
    assert PolicyBackupOf(V, policy, rewards)(s) == value;
    values' := values'[s := value];
    delta' := Max(delta', Abs(V[s] - value));
  }

  /** One evaluation sweep: starts from a copy of `V` and visits every cell
      in row-major order. */
  method EvalSweep(V: ValueTable, policy: PolicyTable, rewards: map<State, real>, terminals: seq<State>)
    returns (newV: ValueTable, delta: real)
    requires IsTable(V) && RewardsCover(rewards) && CoversNonTerminal(policy, terminals)
    ensures EvalState(newV, delta) == FullEval(V, policy, rewards, terminals)
  {
    StatesAreCells();
    ghost var target := PolicyBackupOf(V, policy, rewards);
    newV := V;
    delta := 0.0;
    for i := 0 to |STATES|
      invariant EvalState(newV, delta) == EvalPrefix(V, target, terminals, STATES[..i])
    {
      EvalPrefixExtend(V, target, terminals, STATES, i);
      newV, delta := EvalCell(V, policy, rewards, terminals, newV, delta, STATES[i]);
    }
    assert STATES[..|STATES|] == STATES;
  }

  /** One evaluation sweep from the last entry of a run, recorded as the run's next entry. */
  method EvalSweepRun(V: ValueTable, policy: PolicyTable, rewards: map<State, real>, terminals: seq<State>,
                      ghost run: seq<EvalState>)
    returns (newV: ValueTable, delta: real, ghost run': seq<EvalState>)
    requires IsEvalRun(run, policy, rewards, terminals) && RewardsCover(rewards)
    requires CoversNonTerminal(policy, terminals)
    requires V == run[|run| - 1].values
    ensures run' == run + [EvalState(newV, delta)]
    ensures IsEvalRun(run', policy, rewards, terminals)
    ensures IsTable(newV)
  {
    EvalRunTotal(run, policy, rewards, terminals, |run| - 1);
    newV, delta := EvalSweep(V, policy, rewards, terminals);
    EvalRunExtend(run, policy, rewards, terminals, EvalState(newV, delta));
    run' := run + [EvalState(newV, delta)];
  }

  /** Evaluation of a fixed policy within a budget of `maxSweeps` sweeps,
      restarting from the zero table. When it converges, the result is the
      table after the first sweep whose delta is below `theta`. */
  method PolicyEvaluation(policy: PolicyTable, rewards: map<State, real>, terminals: seq<State>, theta: real,
                          maxSweeps: nat)
    returns (V: ValueTable, converged: bool, ghost run: seq<EvalState>)
    requires RewardsCover(rewards) && CoversNonTerminal(policy, terminals)
    ensures IsEvalRun(run, policy, rewards, terminals) && |run| - 1 <= maxSweeps
    ensures V == run[|run| - 1].values && IsTable(V)
    ensures converged <==> IsConvergedRun(run, policy, rewards, terminals, theta)
    ensures !converged ==> |run| - 1 == maxSweeps && forall k :: 1 <= k < |run| ==> run[k].delta >= theta
  {
    V := ZeroTable();
    converged := false;
    run := [EvalState(V, 0.0)];
    var n := 0;
    while n < maxSweeps && !converged
      invariant n == |run| - 1 <= maxSweeps
      invariant IsEvalRun(run, policy, rewards, terminals)
      invariant V == run[n].values && IsTable(V)
      invariant converged ==> n >= 1 && run[n].delta < theta
      invariant forall k :: 1 <= k < n ==> run[k].delta >= theta
      invariant !converged && n >= 1 ==> run[n].delta >= theta
      decreases maxSweeps - n
    {
      var newV, delta;
      newV, delta, run := EvalSweepRun(V, policy, rewards, terminals, run);
      V := newV;
      n := n + 1;
      converged := delta < theta;
    }
  }

  /** The policy after improvement has visited cell `s`: a terminal cell
      gets no entry, any other cell its entry of `choice`. */
  function ImproveVisit(choice: State -> Action, terminals: seq<State>, p: PolicyTable, s: State): PolicyTable
  {
    if s in terminals then p else p[s := choice(s)]
  }

  /** The policy after greedy improvement has visited the cells `ss` in
      order, starting from an empty policy. */
  function ImprovePrefix(choice: State -> Action, terminals: seq<State>, ss: seq<State>): PolicyTable
  {
    if ss == [] then map[]
    else ImproveVisit(choice, terminals, ImprovePrefix(choice, terminals, ss[..|ss| - 1]), ss[|ss| - 1])
  }

  /** Visiting one more cell extends the improvement by one ImproveVisit. */
  lemma ImprovePrefixExtend(choice: State -> Action, terminals: seq<State>, ss: seq<State>, i: nat)
    requires i < |ss|
    ensures ImprovePrefix(choice, terminals, ss[..i + 1])
         == ImproveVisit(choice, terminals, ImprovePrefix(choice, terminals, ss[..i]), ss[i])
  {
    assert ss[..i + 1][..i] == ss[..i];
  }

  /** The improvement fold has a key exactly for the non-terminal cells it
      visited, each holding its entry of `choice`. */
  lemma {:induction false} ImprovePrefixContents(choice: State -> Action, terminals: seq<State>, ss: seq<State>)
    ensures forall s :: s in ImprovePrefix(choice, terminals, ss) <==> s in ss && s !in terminals
    ensures forall s :: s in ImprovePrefix(choice, terminals, ss) ==> ImprovePrefix(choice, terminals, ss)[s] == choice(s)
  {
    if ss != [] {
      var pre := ss[..|ss| - 1];
      ImprovePrefixContents(choice, terminals, pre);
      assert ss == pre + [ss[|ss| - 1]];
    }
  }

  /** The improved policy for `V`: the greedy action of every non-terminal
      cell, and no entry for terminal cells. */
  ghost function Improved(V: ValueTable, rewards: map<State, real>, terminals: seq<State>): PolicyTable
    requires IsTable(V) && RewardsCover(rewards)
  {
    ImprovePrefix(GreedyOf(V, rewards), terminals, STATES)
  }

  /** The improved policy has keys exactly for the non-terminal cells, and
      each entry is the first maximiser of the backup there. */
  lemma ImprovedIsGreedy(V: ValueTable, rewards: map<State, real>, terminals: seq<State>)
    requires IsTable(V) && RewardsCover(rewards)
    ensures forall s :: s in Improved(V, rewards, terminals) <==> IsCell(s) && s !in terminals
    ensures forall s :: s in Improved(V, rewards, terminals) ==>
      IsCell(s) && Improved(V, rewards, terminals)[s] == Greedy(V, rewards, s)
      && FirstMaximiser(V, rewards, s, Improved(V, rewards, terminals)[s])
  {
    StatesAreCells();
    ImprovePrefixContents(GreedyOf(V, rewards), terminals, STATES);
  }

  /** Improvement never gives a terminal cell an entry, so it never returns
      a policy that has one. */
  lemma ImprovedDiffers(V: ValueTable, rewards: map<State, real>, terminals: seq<State>, policy: PolicyTable, t: State)
    requires IsTable(V) && RewardsCover(rewards)
    requires t in terminals && t in policy
    ensures Improved(V, rewards, terminals) != policy
  {
    ImprovedIsGreedy(V, rewards, terminals);
    assert t !in Improved(V, rewards, terminals);
  }

  /** The body of the improvement loop for cell `s`: skips a terminal cell,
      and otherwise records the first action with the largest backup. */
  method ImproveCell(V: ValueTable, rewards: map<State, real>, terminals: seq<State>, policy: PolicyTable, s: State)
    returns (policy': PolicyTable)
    requires IsTable(V) && RewardsCover(rewards) && IsCell(s)
    ensures policy' == ImproveVisit(GreedyOf(V, rewards), terminals, policy, s)
  {
    policy' := policy;
    if s in terminals {
      return;
    }
    var best, _ := BestAction(V, rewards, s);
    assert GreedyOf(V, rewards)(s) == best;
    policy' := policy'[s := best];
  }

  /** Greedy improvement: for every non-terminal cell in row-major order,
      tries every action and keeps the first with the largest backup. */
  method PolicyImprovement(V: ValueTable, rewards: map<State, real>, terminals: seq<State>)
    returns (policy: PolicyTable)
    requires IsTable(V) && RewardsCover(rewards)
    ensures policy == Improved(V, rewards, terminals)
  {
    ghost var choice := GreedyOf(V, rewards);
    StatesAreCells();
    policy := map[];
    for i := 0 to |STATES|
      invariant policy == ImprovePrefix(choice, terminals, STATES[..i])
    {
      ImprovePrefixExtend(choice, terminals, STATES, i);
      policy := ImproveCell(V, rewards, terminals, policy, STATES[i]);
    }
    assert STATES[..|STATES|] == STATES;
  }

  /** One round of policy iteration: a policy and its evaluation. */
  datatype Round = Round(policy: PolicyTable, values: ValueTable)

  /** The table of the round is the evaluation of its policy. */
  ghost predicate EvaluatedRound(round: Round, rewards: map<State, real>, terminals: seq<State>, theta: real)
  {
    IsTable(round.values) && IsEvaluation(round.policy, rewards, terminals, theta, round.values)
  }

  /** Every round's table is the evaluation of its policy. */
  ghost predicate AllEvaluated(rounds: seq<Round>, rewards: map<State, real>, terminals: seq<State>, theta: real)
  {
    forall i :: 0 <= i < |rounds| ==> EvaluatedRound(rounds[i], rewards, terminals, theta)
  }

  /** Each round after the first evaluates the improvement of the table before it. */
  ghost predicate ImprovementChain(rounds: seq<Round>, rewards: map<State, real>, terminals: seq<State>)
  {
    && RewardsCover(rewards)
    && forall i :: 0 <= i < |rounds| - 1 ==>
         IsTable(rounds[i].values) && rounds[i + 1].policy == Improved(rounds[i].values, rewards, terminals)
  }

  /** The rounds of policy iteration from `initial`: each round's table is
      the evaluation of its policy, and each later round's policy is the
      improvement of the table before it. */
  ghost predicate IsRounds(rounds: seq<Round>, initial: PolicyTable, rewards: map<State, real>, terminals: seq<State>,
                           theta: real)
  {
    && (|rounds| >= 1 ==> rounds[0].policy == initial)
    && AllEvaluated(rounds, rewards, terminals, theta)
    && ImprovementChain(rounds, rewards, terminals)
  }

  /** A round whose table is its policy's evaluation keeps AllEvaluated. */
  lemma AllEvaluatedExtend(rounds: seq<Round>, round: Round, rewards: map<State, real>, terminals: seq<State>,
                           theta: real)
    requires AllEvaluated(rounds, rewards, terminals, theta) && EvaluatedRound(round, rewards, terminals, theta)
    ensures AllEvaluated(rounds + [round], rewards, terminals, theta)
  {
    var rounds' := rounds + [round];
    forall i | 0 <= i < |rounds'|
      ensures EvaluatedRound(rounds'[i], rewards, terminals, theta)
    {
      if i < |rounds| {
        assert rounds'[i] == rounds[i];
      }
    }
  }

  /** A round that evaluates the improvement of the last table keeps ImprovementChain. */
  lemma ImprovementChainExtend(rounds: seq<Round>, round: Round, rewards: map<State, real>, terminals: seq<State>)
    requires ImprovementChain(rounds, rewards, terminals)
    requires |rounds| >= 1 ==>
      IsTable(rounds[|rounds| - 1].values)
      && round.policy == Improved(rounds[|rounds| - 1].values, rewards, terminals)
    ensures ImprovementChain(rounds + [round], rewards, terminals)
  {
    var rounds' := rounds + [round];
    forall i | 0 <= i < |rounds'| - 1
      ensures IsTable(rounds'[i].values) && rounds'[i + 1].policy == Improved(rounds'[i].values, rewards, terminals)
    {
      assert rounds'[i] == rounds[i];
      if i < |rounds| - 1 {
        assert rounds'[i + 1] == rounds[i + 1];
      }
    }
  }

  /** The policy the next round evaluates: `initial` before any round, and
      afterwards the improvement of the last round's table. */
  ghost function NextPolicy(rounds: seq<Round>, initial: PolicyTable, rewards: map<State, real>,
                            terminals: seq<State>, theta: real): PolicyTable
    requires IsRounds(rounds, initial, rewards, terminals, theta)
  {
    if |rounds| == 0 then initial else Improved(rounds[|rounds| - 1].values, rewards, terminals)
  }

  /** Recording the next policy with its evaluation extends the rounds. */
  lemma RoundsExtend(rounds: seq<Round>, initial: PolicyTable, rewards: map<State, real>, terminals: seq<State>,
                     theta: real, values: ValueTable)
    requires IsRounds(rounds, initial, rewards, terminals, theta)
    requires IsTable(values)
    requires IsEvaluation(NextPolicy(rounds, initial, rewards, terminals, theta), rewards, terminals, theta, values)
    ensures IsRounds(rounds + [Round(NextPolicy(rounds, initial, rewards, terminals, theta), values)],
                     initial, rewards, terminals, theta)
  {
    var round := Round(NextPolicy(rounds, initial, rewards, terminals, theta), values);
    AllEvaluatedExtend(rounds, round, rewards, terminals, theta);
    if |rounds| >= 1 {
      assert EvaluatedRound(rounds[|rounds| - 1], rewards, terminals, theta);
    }
    ImprovementChainExtend(rounds, round, rewards, terminals);
  }

  /** No round repeats the policy of the round before it. */
  ghost predicate PoliciesChange(rounds: seq<Round>)
  {
    forall i :: 0 <= i < |rounds| - 1 ==> rounds[i + 1].policy != rounds[i].policy
  }

  /** A round whose policy differs from the last one keeps PoliciesChange. */
  lemma PoliciesChangeExtend(rounds: seq<Round>, round: Round)
    requires PoliciesChange(rounds)
    requires |rounds| >= 1 ==> round.policy != rounds[|rounds| - 1].policy
    ensures PoliciesChange(rounds + [round])
  {
    var rounds' := rounds + [round];
    forall i | 0 <= i < |rounds'| - 1
      ensures rounds'[i + 1].policy != rounds'[i].policy
    {
      if i < |rounds| - 1 {
        assert rounds'[i + 1] == rounds[i + 1] && rounds'[i] == rounds[i];
      }
    }
  }

  /** What the policy-iteration loop keeps between rounds: the recorded
      rounds, the policy the next round evaluates, the table of the last
      round, and whether the loop has stopped stable or stuck. It is stable
      exactly when the policy the last round evaluated is the one the next
      round would evaluate; it is stuck when evaluating that policy does not
      converge within `maxSweeps` sweeps. */
  ghost predicate Progress(rounds: seq<Round>, initial: PolicyTable, rewards: map<State, real>, terminals: seq<State>,
                           maxSweeps: nat, V: ValueTable, policy: PolicyTable, stable: bool, stuck: bool)
  {
    && IsRounds(rounds, initial, rewards, terminals, DEFAULT_THETA)
    && PoliciesChange(rounds)
    && policy == NextPolicy(rounds, initial, rewards, terminals, DEFAULT_THETA)
    && CoversNonTerminal(policy, terminals)
    && (|rounds| == 0 ==> !stable)
    && (|rounds| >= 1 ==> V == rounds[|rounds| - 1].values && (stable <==> policy == rounds[|rounds| - 1].policy))
    && (stuck ==> !stable && !IsEvaluationWithin(policy, rewards, terminals, DEFAULT_THETA, maxSweeps))
  }

  /** One round: evaluates the next policy; when evaluation converges,
      records the policy with its table, improves it, and compares the
      improved policy with the one evaluated; otherwise the loop is stuck. */
  method PolicyRound(rewards: map<State, real>, terminals: seq<State>, maxSweeps: nat, V: ValueTable,
                     policy: PolicyTable, ghost initial: PolicyTable, ghost rounds: seq<Round>)
    returns (V': ValueTable, policy': PolicyTable, stable: bool, stuck: bool, ghost rounds': seq<Round>)
    requires Progress(rounds, initial, rewards, terminals, maxSweeps, V, policy, false, false)
    ensures Progress(rounds', initial, rewards, terminals, maxSweeps, V', policy', stable, stuck)
    ensures stuck ==> rounds' == rounds
    ensures !stuck ==> |rounds'| == |rounds| + 1
  {
    var values, converged;
    ghost var run;
    values, converged, run := PolicyEvaluation(policy, rewards, terminals, DEFAULT_THETA, maxSweeps);
    if !converged {
      NoEvaluationWithin(policy, rewards, terminals, DEFAULT_THETA, maxSweeps, run);
      V', policy', stable, stuck, rounds' := V, policy, false, true, rounds;
    } else {
      assert IsConvergedRun(run, policy, rewards, terminals, DEFAULT_THETA) && values == run[|run| - 1].values;
      RoundsExtend(rounds, initial, rewards, terminals, DEFAULT_THETA, values);
      PoliciesChangeExtend(rounds, Round(policy, values));
      rounds' := rounds + [Round(policy, values)];
      policy' := PolicyImprovement(values, rewards, terminals);
      ImprovedIsGreedy(values, rewards, terminals);
      V', stable, stuck := values, policy == policy', false;
    }
  }

  /** The loop of policy iteration over a given reward table and terminal
      set, from the total policy `initial`: rounds run until one leaves the
      policy unchanged, an evaluation does not converge, or `maxRounds`
      rounds have run. */
  method IterateRounds(rewards: map<State, real>, terminals: seq<State>, initial: PolicyTable, maxSweeps: nat,
                       maxRounds: nat)
    returns (V: ValueTable, policy: PolicyTable, stable: bool, stuck: bool, ghost rounds: seq<Round>)
    requires RewardsCover(rewards) && IsTotalPolicy(initial)
    ensures Progress(rounds, initial, rewards, terminals, maxSweeps, V, policy, stable, stuck)
    ensures |rounds| <= maxRounds && (!stable && !stuck ==> |rounds| == maxRounds)
  {
    policy := initial;
    V := ZeroTable();
    stable := false;
    stuck := false;
    rounds := [];
    var n := 0;
    while n < maxRounds && !stable && !stuck
      invariant n == |rounds| <= maxRounds
      invariant Progress(rounds, initial, rewards, terminals, maxSweeps, V, policy, stable, stuck)
      decreases maxRounds - n, if stuck || stable then 0 else 1
    {
      V, policy, stable, stuck, rounds := PolicyRound(rewards, terminals, maxSweeps, V, policy, initial, rounds);
      if !stuck {
        n := n + 1;
      }
    }
  }

  /** What the loop's end state says about the result: when stable, the
      result is the last policy and its evaluation, improvement leaves that
      policy unchanged, and, since `initial` has an entry for the terminal
      cell `t` that improvement never gives one, at least two rounds ran. */
  lemma StableResult(rounds: seq<Round>, initial: PolicyTable, rewards: map<State, real>, terminals: seq<State>,
                     maxSweeps: nat, V: ValueTable, policy: PolicyTable, stuck: bool, t: State)
    requires Progress(rounds, initial, rewards, terminals, maxSweeps, V, policy, true, stuck)
    requires t in terminals && t in initial
    ensures |rounds| >= 2
    ensures V == rounds[|rounds| - 1].values && policy == rounds[|rounds| - 1].policy
    ensures IsTable(V) && RewardsCover(rewards) && policy == Improved(V, rewards, terminals)
  {
    assert EvaluatedRound(rounds[|rounds| - 1], rewards, terminals, DEFAULT_THETA);
    if |rounds| == 1 {
      ImprovedDiffers(V, rewards, terminals, initial, t);
    }
  }

  /** Policy iteration for start-cell reward `r` from the total policy
      `initial`, within budgets of `maxRounds` rounds and `maxSweeps` sweeps
      per evaluation. `rounds` records each policy and its evaluation; no
      round repeats the policy of the round before it. When it stops
      stable, the last improvement returned the policy unchanged: the result
      is that policy and its evaluation, at least two rounds ran, and the
      policy is greedy for its own evaluation: at every non-terminal cell it
      picks the first action with the largest backup. Otherwise the round
      budget ran out or the evaluation of the next policy does not converge
      in time. In either case `policy` is the policy the next round would
      evaluate, and it is stable exactly when that is the policy of the
      last round. */
  method PolicyIteration(r: real, initial: PolicyTable, maxSweeps: nat, maxRounds: nat)
    returns (V: ValueTable, policy: PolicyTable, stable: bool, ghost rounds: seq<Round>)
    requires IsTotalPolicy(initial)
    ensures IsRounds(rounds, initial, Rewards(r), TERMINAL_STATES, DEFAULT_THETA) && |rounds| <= maxRounds
    ensures PoliciesChange(rounds)
    ensures policy == NextPolicy(rounds, initial, Rewards(r), TERMINAL_STATES, DEFAULT_THETA)
    ensures |rounds| >= 1 ==>
      V == rounds[|rounds| - 1].values && (stable <==> policy == rounds[|rounds| - 1].policy)
    ensures stable ==>
      && |rounds| >= 2
      && V == rounds[|rounds| - 1].values && policy == rounds[|rounds| - 1].policy
      && policy == Improved(V, Rewards(r), TERMINAL_STATES)
    ensures stable ==>
      && IsTable(V) && GOAL !in policy
      && forall s :: IsCell(s) && s != GOAL ==> s in policy && FirstMaximiser(V, Rewards(r), s, policy[s])
    ensures !stable ==> |rounds| == maxRounds || !IsEvaluationWithin(
      NextPolicy(rounds, initial, Rewards(r), TERMINAL_STATES, DEFAULT_THETA),
      Rewards(r), TERMINAL_STATES, DEFAULT_THETA, maxSweeps)
  {
    var stuck;
    V, policy, stable, stuck, rounds := IterateRounds(Rewards(r), TERMINAL_STATES, initial, maxSweeps, maxRounds);
    if stable {
      TerminalIsGoal();
      StableResult(rounds, initial, Rewards(r), TERMINAL_STATES, maxSweeps, V, policy, stuck, GOAL);
      ImprovedIsGreedy(V, Rewards(r), TERMINAL_STATES);
    }
  }
}
