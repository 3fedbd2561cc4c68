/** Value iteration: synchronous sweeps of the Bellman optimality backup
    until the largest change of a sweep drops below the threshold. */
module ValueIterationSolver {
  import opened Grid
  import opened RewardModel
  import opened Bellman

  /** The stopping threshold value iteration uses when its caller gives none. */
  const DEFAULT_THRESHOLD: real := 0.0001

  /** What a sweep carries from cell to cell: the table being written, the
      policy being updated and the largest change so far. */
  datatype SweepState = SweepState(values: ValueTable, policy: PolicyTable, delta: real)

  /** The starting policy: `U` in every cell, the terminal one included. */
  function InitialPolicy(): (policy: PolicyTable)
    ensures IsTotalPolicy(policy)
    ensures forall s :: s in policy ==> policy[s] == U
  {
    StatesAreCells();
    map s | s in STATES :: U
  }

  /** The sweep state after visiting cell `s`, where `choice` and `best` hold
      the greedy action and best backup of every cell with respect to `V`: a
      terminal cell is skipped; otherwise `s` gets its best backup and its
      greedy action, and the change at `s` joins the largest change so far. */
  function Visit(V: ValueTable, choice: State -> Action, best: State -> real, terminals: seq<State>, st: SweepState, s: State)
    : SweepState
    requires IsTable(V) && IsCell(s)
  {
    if s in terminals then st
    else SweepState(st.values[s := best(s)], st.policy[s := choice(s)], Max(st.delta, Abs(V[s] - best(s))))
  }

  /** The state of a sweep after visiting the cells `ss` in order, starting
      from a copy of `V` and `policy`. */
  function SweepPrefix(V: ValueTable, policy: PolicyTable, choice: State -> Action, best: State -> real, terminals: seq<State>,
                       ss: seq<State>): (st: SweepState)
    requires IsTable(V) && IsTotalPolicy(policy)
    requires forall s :: s in ss ==> IsCell(s)
    ensures IsTable(st.values) && IsTotalPolicy(st.policy)
  {
    if ss == [] then SweepState(V, policy, 0.0)
    else Visit(V, choice, best, terminals, SweepPrefix(V, policy, choice, best, terminals, ss[..|ss| - 1]), ss[|ss| - 1])
  }

  /** Visiting one more cell extends the sweep by one Visit. */
  lemma SweepPrefixExtend(V: ValueTable, policy: PolicyTable, choice: State -> Action, best: State -> real, terminals: seq<State>,
                          ss: seq<State>, i: nat)
    requires IsTable(V) && IsTotalPolicy(policy)
    requires forall s :: s in ss ==> IsCell(s)
    requires i < |ss|
    ensures SweepPrefix(V, policy, choice, best, terminals, ss[..i + 1])
         == Visit(V, choice, best, terminals, SweepPrefix(V, policy, choice, best, terminals, ss[..i]), ss[i])
  {
    assert ss[..i + 1][..i] == ss[..i];
  }

  /** One full sweep over the grid in row-major order; every backup reads `V` alone. */
  ghost function FullSweep(V: ValueTable, policy: PolicyTable, rewards: map<State, real>, terminals: seq<State>): (st: SweepState)
    requires IsTable(V) && IsTotalPolicy(policy) && RewardsCover(rewards)
    ensures IsTable(st.values) && IsTotalPolicy(st.policy)
  {
    StatesAreCells();
    SweepPrefix(V, policy, GreedyOf(V, rewards), BestOf(V, rewards), terminals, STATES)
  }

  /** Cells the sweep has not visited, and terminal cells, keep their value and policy entry. */
  lemma {:induction false} SweepKeeps(V: ValueTable, policy: PolicyTable, choice: State -> Action, best: State -> real,
                                      terminals: seq<State>, ss: seq<State>, t: State)
    requires IsTable(V) && IsTotalPolicy(policy)
    requires forall s :: s in ss ==> IsCell(s)
    requires IsCell(t) && (t !in ss || t in terminals)
    ensures SweepPrefix(V, policy, choice, best, terminals, ss).values[t] == V[t]
    ensures SweepPrefix(V, policy, choice, best, terminals, ss).policy[t] == policy[t]
  {
    if ss != [] {
      var pre := ss[..|ss| - 1];
      assert t !in pre || t in terminals;
      SweepKeeps(V, policy, choice, best, terminals, pre, t);
    }
  }

  /** Every visited non-terminal cell holds its best backup and its greedy action. */
  lemma {:induction false} SweepWrites(V: ValueTable, policy: PolicyTable, choice: State -> Action, best: State -> real,
                                       terminals: seq<State>, ss: seq<State>, t: State)
    requires IsTable(V) && IsTotalPolicy(policy)
    requires forall s :: s in ss ==> IsCell(s)
    requires t in ss && t !in terminals
    ensures SweepPrefix(V, policy, choice, best, terminals, ss).values[t] == best(t)
    ensures SweepPrefix(V, policy, choice, best, terminals, ss).policy[t] == choice(t)
  {
    var pre := ss[..|ss| - 1];
    if t != ss[|ss| - 1] {
      assert t in pre;
      SweepWrites(V, policy, choice, best, terminals, pre, t);
    }
  }

  /** The largest change a sweep records is MaxChange between `V` and the table it writes. */
  lemma {:induction false} SweepDelta(V: ValueTable, policy: PolicyTable, choice: State -> Action, best: State -> real,
                                      terminals: seq<State>, ss: seq<State>)
    requires IsTable(V) && IsTotalPolicy(policy)
    requires forall s :: s in ss ==> IsCell(s)
    ensures var st := SweepPrefix(V, policy, choice, best, terminals, ss);
      st.delta == MaxChange(V, st.values, terminals, ss)
  {
    if ss != [] {
      var pre := ss[..|ss| - 1];
      var s := ss[|ss| - 1];
      SweepDelta(V, policy, choice, best, terminals, pre);
      var before := SweepPrefix(V, policy, choice, best, terminals, pre).values;
      var after := SweepPrefix(V, policy, choice, best, terminals, ss).values;
      forall u | u in pre
        ensures after[u] == before[u]
      {
        if u == s && u !in terminals {
          SweepWrites(V, policy, choice, best, terminals, pre, u);
        }
      }
      MaxChangeLocal(V, after, before, terminals, pre);
    }
  }

  /** A full sweep is a Bellman optimality backup: a non-terminal cell's new
      value is the largest backup over all actions, attained by the action
      the sweep records there, which is the first maximiser in ACTIONS order;
      a terminal cell keeps both its value and its policy entry. The change
      the sweep records is the largest change over the non-terminal cells. */
  lemma SweepIsOptimalBackup(V: ValueTable, policy: PolicyTable, rewards: map<State, real>, terminals: seq<State>, s: State)
    requires IsTable(V) && IsTotalPolicy(policy) && RewardsCover(rewards) && IsCell(s)
    ensures var st := FullSweep(V, policy, rewards, terminals);
      && (if s in terminals then st.values[s] == V[s] && st.policy[s] == policy[s]
          else
            && st.values[s] == QValue(V, rewards, s, st.policy[s])
            && (forall a :: QValue(V, rewards, s, a) <= st.values[s])
            && FirstMaximiser(V, rewards, s, st.policy[s]))
      && st.delta == SweepChange(V, st.values, terminals)
  {
    StatesAreCells();
    var choice, best := GreedyOf(V, rewards), BestOf(V, rewards);
    if s in terminals {
      SweepKeeps(V, policy, choice, best, terminals, STATES, s);
    } else {
      SweepWrites(V, policy, choice, best, terminals, STATES, s);
    }
    SweepDelta(V, policy, choice, best, terminals, STATES);
  }

  /** `next` is what one full sweep makes of `st`. */
  ghost predicate SweepStep(st: SweepState, next: SweepState, rewards: map<State, real>, terminals: seq<State>)
  {
    && IsTable(st.values) && IsTotalPolicy(st.policy) && RewardsCover(rewards)
    && next == FullSweep(st.values, st.policy, rewards, terminals)
  }

  /** A run of value iteration: it starts from the zero table and the
      all-`U` policy, and each entry is one full sweep of the one before. */
  ghost predicate IsRun(run: seq<SweepState>, rewards: map<State, real>, terminals: seq<State>)
  {
    && |run| >= 1
    && run[0] == SweepState(ZeroTable(), InitialPolicy(), 0.0)
    && forall k :: 0 <= k < |run| - 1 ==> SweepStep(run[k], run[k + 1], rewards, terminals)
  }

  /** A run is determined by its length: any two runs agree wherever both are defined. */
  lemma {:induction false} RunDeterministic(a: seq<SweepState>, b: seq<SweepState>, rewards: map<State, real>,
                                            terminals: seq<State>, k: nat)
    requires IsRun(a, rewards, terminals) && IsRun(b, rewards, terminals)
    requires k < |a| && k < |b|
    ensures a[k] == b[k]
  {
    if k > 0 {
      var j: nat := k - 1;
      RunDeterministic(a, b, rewards, terminals, j);
      assert SweepStep(a[j], a[j + 1], rewards, terminals);
      assert SweepStep(b[j], b[j + 1], rewards, terminals);
    }
  }

  /** A run extended by one full sweep of its last entry is a run. */
  lemma RunExtend(run: seq<SweepState>, rewards: map<State, real>, terminals: seq<State>, next: SweepState)
    requires IsRun(run, rewards, terminals)
    requires IsTable(run[|run| - 1].values) && IsTotalPolicy(run[|run| - 1].policy) && RewardsCover(rewards)
    requires next == FullSweep(run[|run| - 1].values, run[|run| - 1].policy, rewards, terminals)
    ensures IsRun(run + [next], rewards, terminals)
  {
    var run' := run + [next];
    forall k | 0 <= k < |run'| - 1
      ensures SweepStep(run'[k], run'[k + 1], rewards, terminals)
    {
      if k < |run| - 1 {
        assert SweepStep(run[k], run[k + 1], rewards, terminals);
      }
    }
  }

  /** Every entry of a run is a total table and a total policy. */
  lemma RunEntriesTotal(run: seq<SweepState>, rewards: map<State, real>, terminals: seq<State>, k: nat)
    requires IsRun(run, rewards, terminals) && k < |run|
    ensures IsTable(run[k].values) && IsTotalPolicy(run[k].policy)
  {
    if k > 0 {
      assert SweepStep(run[k - 1], run[k], rewards, terminals);
    }
  }

  /** Sweeps never touch a terminal cell: its value stays 0 and its policy entry `U`. */
  lemma {:induction false} TerminalFrozen(run: seq<SweepState>, rewards: map<State, real>, terminals: seq<State>,
                                          k: nat, t: State)
    requires IsRun(run, rewards, terminals) && k < |run| && IsCell(t) && t in terminals
    ensures t in run[k].values && run[k].values[t] == 0.0
    ensures t in run[k].policy && run[k].policy[t] == U
  {
    if k > 0 {
      var j: nat := k - 1;
      TerminalFrozen(run, rewards, terminals, j, t);
      assert SweepStep(run[j], run[k], rewards, terminals);
      SweepIsOptimalBackup(run[j].values, run[j].policy, rewards, terminals, t);
    }
  }

  /** After sweep `k`, each non-terminal cell's policy entry is the first
      maximiser of the backup of the previous table, and its value is the
      backup of that action; the recorded delta is the largest change
      between the two tables. */
  lemma SweepResult(run: seq<SweepState>, rewards: map<State, real>, terminals: seq<State>, k: nat, s: State)
    requires IsRun(run, rewards, terminals) && 1 <= k < |run| && IsCell(s) && s !in terminals
    ensures IsTable(run[k - 1].values) && IsTable(run[k].values) && IsTotalPolicy(run[k].policy)
    ensures RewardsCover(rewards)
    ensures FirstMaximiser(run[k - 1].values, rewards, s, run[k].policy[s])
    ensures run[k].values[s] == QValue(run[k - 1].values, rewards, s, run[k].policy[s])
    ensures run[k].delta == SweepChange(run[k - 1].values, run[k].values, terminals)
  {
    var j: nat := k - 1;
    assert SweepStep(run[j], run[k], rewards, terminals);
    SweepIsOptimalBackup(run[j].values, run[j].policy, rewards, terminals, s);
  }

  /** Sweep by sweep, value iteration is monotone in the rewards: with
      rewards that are nowhere smaller, every cell's value after `k` sweeps
      is no smaller. */
  lemma {:induction false} SweepsMonotone(a: seq<SweepState>, b: seq<SweepState>,
                                          rewards1: map<State, real>, rewards2: map<State, real>,
                                          terminals: seq<State>, k: nat)
    requires IsRun(a, rewards1, terminals) && IsRun(b, rewards2, terminals)
    requires RewardsCover(rewards1) && RewardsCover(rewards2)
    requires forall s :: IsCell(s) ==> rewards1[s] <= rewards2[s]
    requires k < |a| && k < |b|
    ensures IsTable(a[k].values) && IsTable(b[k].values)
    ensures forall s :: IsCell(s) ==> a[k].values[s] <= b[k].values[s]
  {
    if k == 0 {
      RunEntriesTotal(a, rewards1, terminals, k);
      RunEntriesTotal(b, rewards2, terminals, k);
    } else {
      var j: nat := k - 1;
      SweepsMonotone(a, b, rewards1, rewards2, terminals, j);
      RunEntriesTotal(a, rewards1, terminals, k);
      RunEntriesTotal(b, rewards2, terminals, k);
      forall s | IsCell(s)
        ensures a[k].values[s] <= b[k].values[s]
      {
        if s in terminals {
          TerminalFrozen(a, rewards1, terminals, k, s);
          TerminalFrozen(b, rewards2, terminals, k, s);
        } else {
          SweepResult(a, rewards1, terminals, k, s);
          SweepResult(b, rewards2, terminals, k, s);
          QValueMonotone(a[j].values, b[j].values, rewards1, rewards2, s, a[k].policy[s]);
        }
      }
    }
  }

  /** Raising the start-cell reward `r` lowers no cell's value after any
      number of sweeps, the start cell's included. */
  lemma RunMonotone(r1: real, r2: real, a: seq<SweepState>, b: seq<SweepState>, k: nat)
    requires r1 <= r2
    requires IsRun(a, Rewards(r1), TERMINAL_STATES) && IsRun(b, Rewards(r2), TERMINAL_STATES)
    requires k < |a| && k < |b|
    ensures IsTable(a[k].values) && IsTable(b[k].values)
    ensures forall s :: IsCell(s) ==> a[k].values[s] <= b[k].values[s]
  {
    RewardsMonotone(r1, r2);
    SweepsMonotone(a, b, Rewards(r1), Rewards(r2), TERMINAL_STATES, k);
  }

  /** The body of the sweep loop for cell `s`: skips a terminal cell, and
      otherwise writes the best backup of `s` computed from `V`, records the
      action attaining it and updates the largest change. */
  method VisitCell(V: ValueTable, rewards: map<State, real>, terminals: seq<State>,
                   values: ValueTable, policy: PolicyTable, delta: real, s: State)
    returns (values': ValueTable, policy': PolicyTable, delta': real)
    requires IsTable(V) && RewardsCover(rewards) && IsCell(s)
    ensures SweepState(values', policy', delta')
         == Visit(V, GreedyOf(V, rewards), BestOf(V, rewards), terminals, SweepState(values, policy, delta), s)
  {
    values', policy', delta' := values, policy, delta;
    if s in terminals {
      return;
    }
    var best, maxVal := BestAction(V, rewards, s);
    assert GreedyOf(V, rewards)(s) == best && BestOf(V, rewards)(s) == maxVal;
    values' := values'[s := maxVal];
    policy' := policy'[s := best];
    delta' := Max(delta', Abs(V[s] - maxVal));
  }

  /** One sweep: starts from a copy of `V` and `policy` and visits every cell
      in row-major order. */
  method Sweep(V: ValueTable, policy: PolicyTable, rewards: map<State, real>, terminals: seq<State>)
    returns (newV: ValueTable, newPolicy: PolicyTable, delta: real)
    requires IsTable(V) && IsTotalPolicy(policy) && RewardsCover(rewards)
    ensures SweepState(newV, newPolicy, delta) == FullSweep(V, policy, rewards, terminals)
  {
    StatesAreCells();
    ghost var choice, best := GreedyOf(V, rewards), BestOf(V, rewards);
    newV := V;
    newPolicy := policy;
    delta := 0.0;
    for i := 0 to |STATES|
      invariant SweepState(newV, newPolicy, delta) == SweepPrefix(V, policy, choice, best, terminals, STATES[..i])
    {
      SweepPrefixExtend(V, policy, choice, best, terminals, STATES, i);
      newV, newPolicy, delta := VisitCell(V, rewards, terminals, newV, newPolicy, delta, STATES[i]);
    }
    assert STATES[..|STATES|] == STATES;
  }

  /** One sweep from the last entry of a run, recorded as the run's next entry. */
  method SweepRun(V: ValueTable, policy: PolicyTable, rewards: map<State, real>, terminals: seq<State>,
                  ghost run: seq<SweepState>)
    returns (newV: ValueTable, newPolicy: PolicyTable, delta: real, ghost run': seq<SweepState>)
    requires IsRun(run, rewards, terminals) && RewardsCover(rewards)
    requires V == run[|run| - 1].values && policy == run[|run| - 1].policy
    ensures run' == run + [SweepState(newV, newPolicy, delta)]
    ensures IsRun(run', rewards, terminals)
    ensures IsTable(newV) && IsTotalPolicy(newPolicy)
  {
    RunEntriesTotal(run, rewards, terminals, |run| - 1);
    newV, newPolicy, delta := Sweep(V, policy, rewards, terminals);
    RunExtend(run, rewards, terminals, SweepState(newV, newPolicy, delta));
    run' := run + [SweepState(newV, newPolicy, delta)];
  }

  /** The sweep loop of value iteration over a given reward table and
      terminal set: sweeps until the largest change drops below `threshold`,
      or `maxSweeps` sweeps have run. */
  method IterateSweeps(rewards: map<State, real>, terminals: seq<State>, threshold: real, maxSweeps: nat)
    returns (V: ValueTable, policy: PolicyTable, converged: bool, ghost run: seq<SweepState>)
    requires RewardsCover(rewards)
    ensures IsRun(run, rewards, terminals) && |run| - 1 <= maxSweeps
    ensures V == run[|run| - 1].values && policy == run[|run| - 1].policy
    ensures converged <==> |run| >= 2 && run[|run| - 1].delta < threshold
    ensures !converged ==> |run| - 1 == maxSweeps
    ensures forall k :: 1 <= k < |run| - 1 ==> run[k].delta >= threshold
  {
    V := ZeroTable();
    policy := InitialPolicy();
    converged := false;
    run := [SweepState(V, policy, 0.0)];
    var n := 0;
    while n < maxSweeps && !converged
      invariant n == |run| - 1 <= maxSweeps
      invariant IsRun(run, rewards, terminals)
      invariant V == run[n].values && policy == run[n].policy
      invariant converged ==> n >= 1 && run[n].delta < threshold
      invariant forall k :: 1 <= k < n ==> run[k].delta >= threshold
      invariant !converged && n >= 1 ==> run[n].delta >= threshold
      invariant IsTable(V) && IsTotalPolicy(policy)
      decreases maxSweeps - n
    {
      var newV, newPolicy, delta;
      newV, newPolicy, delta, run := SweepRun(V, policy, rewards, terminals, run);
      V, policy := newV, newPolicy;
      n := n + 1;
      converged := delta < threshold;
    }
  }

  /** Value iteration for start-cell reward `r`, within a budget of
      `maxSweeps` sweeps. `run` records the state after each sweep; it
      reports convergence exactly when the last sweep's largest change is
      below `threshold`, and that sweep is then the first such one. */
  method ValueIteration(r: real, threshold: real, maxSweeps: nat)
    returns (V: ValueTable, policy: PolicyTable, converged: bool, ghost run: seq<SweepState>)
    ensures IsRun(run, Rewards(r), TERMINAL_STATES) && |run| - 1 <= maxSweeps
    ensures V == run[|run| - 1].values && policy == run[|run| - 1].policy
    ensures converged <==> |run| >= 2 && run[|run| - 1].delta < threshold
    ensures !converged ==> |run| - 1 == maxSweeps
    ensures forall k :: 1 <= k < |run| - 1 ==> run[k].delta >= threshold
    ensures GOAL in V && V[GOAL] == 0.0 && GOAL in policy && policy[GOAL] == U
  {
    V, policy, converged, run := IterateSweeps(Rewards(r), TERMINAL_STATES, threshold, maxSweeps);
    TerminalIsGoal();
    TerminalFrozen(run, Rewards(r), TERMINAL_STATES, |run| - 1, GOAL);
  }
}
