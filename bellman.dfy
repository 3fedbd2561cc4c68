/** The one-step Bellman backup, greedy action selection and the sweep
    change measure; both solvers are built from these. */
module Bellman {
  import opened Grid

  datatype Option<T> = None | Some(value: T)

  /** A value per cell. */
  type ValueTable = map<State, real>

  /** An action per cell. */
  type PolicyTable = map<State, Action>

  /** A value table holds exactly the grid's cells as keys. */
  ghost predicate IsTable(V: ValueTable)
  {
    forall s :: s in V <==> IsCell(s)
  }

  /** A policy holds exactly the grid's cells as keys. */
  ghost predicate IsTotalPolicy(policy: PolicyTable)
  {
    forall s :: s in policy <==> IsCell(s)
  }

  /** Every grid cell has a reward. */
  ghost predicate RewardsCover(rewards: map<State, real>)
  {
    forall s :: IsCell(s) ==> s in rewards
  }

  /** The all-zero value table both solvers start from. */
  function ZeroTable(): (V: ValueTable)
    ensures IsTable(V)
    ensures forall s :: s in V ==> V[s] == 0.0
  {
    StatesAreCells();
    map s | s in STATES :: 0.0
  }

  /** The backup sum `Σ prob * (reward + DISCOUNT * V[next])`, accumulated
      left to right over the outcomes. */
  function BackupSum(outs: seq<Outcome>, reward: real, V: ValueTable): real
    requires forall o :: o in outs ==> o.next in V
  {
    if outs == [] then 0.0
    else
      var o := outs[|outs| - 1];
      BackupSum(outs[..|outs| - 1], reward, V) + o.prob * (reward + DISCOUNT * V[o.next])
  }

  /** The expected next value `Σ prob * V[next]`. */
  function Expected(outs: seq<Outcome>, V: ValueTable): real
    requires forall o :: o in outs ==> o.next in V
  {
    if outs == [] then 0.0
    else Expected(outs[..|outs| - 1], V) + outs[|outs| - 1].prob * V[outs[|outs| - 1].next]
  }

  /** The backed-up value of intending `a` in `s`. The reward is that of the
      source cell `s`, not of the cell reached. */
  function QValue(V: ValueTable, rewards: map<State, real>, s: State, a: Action): real
    requires IsTable(V) && IsCell(s) && s in rewards
  {
    NextStatesInTable(V, s, a);
    BackupSum(NextStates(s, a), rewards[s], V)
  }

  lemma NextStatesInTable(V: ValueTable, s: State, a: Action)
    requires IsTable(V) && IsCell(s)
    ensures forall o :: o in NextStates(s, a) ==> o.next in V
  {
  }

  /** The backup sum splits into the weighted reward and the discounted expectation. */
  lemma {:induction false} BackupSumSplit(outs: seq<Outcome>, reward: real, V: ValueTable)
    requires forall o :: o in outs ==> o.next in V
    ensures BackupSum(outs, reward, V) == ProbSum(outs) * reward + DISCOUNT * Expected(outs, V)
  {
    if outs != [] {
      BackupSumSplit(outs[..|outs| - 1], reward, V);
    }
  }

  /** The expected value of the cell reached when intending `a` in `s`. */
  function ExpectedNext(V: ValueTable, s: State, a: Action): real
    requires IsTable(V) && IsCell(s)
  {
    NextStatesInTable(V, s, a);
    Expected(NextStates(s, a), V)
  }

  /** Because the probabilities sum to one, a backup is the source cell's
      reward plus the discounted expected next value. */
  lemma QValueRecentred(V: ValueTable, rewards: map<State, real>, s: State, a: Action)
    requires IsTable(V) && IsCell(s) && s in rewards
    ensures QValue(V, rewards, s, a) == rewards[s] + DISCOUNT * ExpectedNext(V, s, a)
  {
    NextStatesInTable(V, s, a);
    BackupSumSplit(NextStates(s, a), rewards[s], V);
  }

  /** A backup reads the value table only at the cells the move can reach. */
  lemma {:induction false} BackupSumLocal(outs: seq<Outcome>, reward: real, V: ValueTable, W: ValueTable)
    requires forall o :: o in outs ==> o.next in V && o.next in W && V[o.next] == W[o.next]
    ensures BackupSum(outs, reward, V) == BackupSum(outs, reward, W)
  {
    if outs != [] {
      BackupSumLocal(outs[..|outs| - 1], reward, V, W);
    }
  }

  /** The backup sum is monotone: a reward and next values that are no
      smaller give a backup that is no smaller, since no probability is
      negative and the discount is positive. */
  lemma {:induction false} BackupSumMonotone(outs: seq<Outcome>, reward1: real, reward2: real,
                                             V: ValueTable, W: ValueTable)
    requires reward1 <= reward2
    requires forall o :: o in outs ==> 0.0 <= o.prob && o.next in V && o.next in W && V[o.next] <= W[o.next]
    ensures BackupSum(outs, reward1, V) <= BackupSum(outs, reward2, W)
  {
    if outs != [] {
      var o := outs[|outs| - 1];
      BackupSumMonotone(outs[..|outs| - 1], reward1, reward2, V, W);
      assert reward1 + DISCOUNT * V[o.next] <= reward2 + DISCOUNT * W[o.next];
    }
  }

  /** The backup of an action is monotone in the reward of the source cell
      and in the table of values. */
  lemma QValueMonotone(V: ValueTable, W: ValueTable, rewards1: map<State, real>, rewards2: map<State, real>,
                       s: State, a: Action)
    requires IsTable(V) && IsTable(W) && IsCell(s) && s in rewards1 && s in rewards2
    requires rewards1[s] <= rewards2[s]
    requires forall t :: IsCell(t) ==> V[t] <= W[t]
    ensures QValue(V, rewards1, s, a) <= QValue(W, rewards2, s, a)
  {
    var outs := NextStates(s, a);
    assert forall o :: o in outs ==> o == outs[0] || o == outs[1] || o == outs[2];
    assert outs[1] == Outcome(Step(s, Perpendiculars(a)[0]), DRIFT_PROB);
    assert outs[2] == Outcome(Step(s, Perpendiculars(a)[1]), DRIFT_PROB);
    BackupSumMonotone(outs, rewards1[s], rewards2[s], V, W);
  }

  /** The position of an action in ACTIONS. */
  function Index(a: Action): (k: nat)
    ensures k < |ACTIONS| && ACTIONS[k] == a
  {
    match a
    case U => 0
    case D => 1
    case L => 2
    case R => 3
  }

  /** `a` attains the largest backup in `s`, and every action before it in
      ACTIONS does strictly worse. */
  ghost predicate FirstMaximiser(V: ValueTable, rewards: map<State, real>, s: State, a: Action)
    requires IsTable(V) && IsCell(s) && s in rewards
  {
    && (forall b :: QValue(V, rewards, s, b) <= QValue(V, rewards, s, a))
    && (forall j :: 0 <= j < Index(a) ==> QValue(V, rewards, s, ACTIONS[j]) < QValue(V, rewards, s, a))
  }

  /** At most one action is the first maximiser. */
  lemma FirstMaximiserUnique(V: ValueTable, rewards: map<State, real>, s: State, a: Action, b: Action)
    requires IsTable(V) && IsCell(s) && s in rewards
    requires FirstMaximiser(V, rewards, s, a) && FirstMaximiser(V, rewards, s, b)
    ensures a == b
  {
    assert QValue(V, rewards, s, ACTIONS[Index(a)]) == QValue(V, rewards, s, a);
    assert QValue(V, rewards, s, ACTIONS[Index(b)]) == QValue(V, rewards, s, b);
    assert Index(a) == Index(b);
  }

  /** The action kept after trying the first `n` actions with a strict `>`
      comparison against the best so far. */
  function GreedyUpTo(V: ValueTable, rewards: map<State, real>, s: State, n: nat): Action
    requires IsTable(V) && IsCell(s) && s in rewards
    requires 1 <= n <= |ACTIONS|
  {
    if n == 1 then ACTIONS[0]
    else
      var b := GreedyUpTo(V, rewards, s, n - 1);
      if QValue(V, rewards, s, ACTIONS[n - 1]) > QValue(V, rewards, s, b) then ACTIONS[n - 1] else b
  }

  lemma {:induction false} GreedyUpToIsFirstMaximiser(V: ValueTable, rewards: map<State, real>, s: State, n: nat)
    requires IsTable(V) && IsCell(s) && s in rewards
    requires 1 <= n <= |ACTIONS|
    ensures var g := GreedyUpTo(V, rewards, s, n);
      && Index(g) < n
      && (forall j :: 0 <= j < n ==> QValue(V, rewards, s, ACTIONS[j]) <= QValue(V, rewards, s, g))
      && (forall j :: 0 <= j < Index(g) ==> QValue(V, rewards, s, ACTIONS[j]) < QValue(V, rewards, s, g))
  {
    if n > 1 {
      GreedyUpToIsFirstMaximiser(V, rewards, s, n - 1);
    }
  }

  /** Trying all four actions with the strict comparison finds the first maximiser. */
  lemma ScanIsFirstMaximiser(V: ValueTable, rewards: map<State, real>, s: State)
    requires IsTable(V) && IsCell(s) && s in rewards
    ensures FirstMaximiser(V, rewards, s, GreedyUpTo(V, rewards, s, |ACTIONS|))
  {
    GreedyUpToIsFirstMaximiser(V, rewards, s, |ACTIONS|);
    var g := GreedyUpTo(V, rewards, s, |ACTIONS|);
    forall b
      ensures QValue(V, rewards, s, b) <= QValue(V, rewards, s, g)
    {
      assert ACTIONS[Index(b)] == b;
    }
  }

  /** The greedy action in `s` with respect to `V`: the first maximiser of
      the backup, which exists because the scan finds one. */
  ghost function Greedy(V: ValueTable, rewards: map<State, real>, s: State): (a: Action)
    requires IsTable(V) && IsCell(s) && s in rewards
    ensures FirstMaximiser(V, rewards, s, a)
  {
    ScanIsFirstMaximiser(V, rewards, s);
    var a :| FirstMaximiser(V, rewards, s, a);
    a
  }

  /** The greedy action is exactly what the scan in ACTIONS order keeps. */
  lemma GreedyIsScan(V: ValueTable, rewards: map<State, real>, s: State)
    requires IsTable(V) && IsCell(s) && s in rewards
    ensures Greedy(V, rewards, s) == GreedyUpTo(V, rewards, s, |ACTIONS|)
  {
    ScanIsFirstMaximiser(V, rewards, s);
    FirstMaximiserUnique(V, rewards, s, Greedy(V, rewards, s), GreedyUpTo(V, rewards, s, |ACTIONS|));
  }

  /** The greedy action of every cell with respect to `V`. */
  ghost function GreedyOf(V: ValueTable, rewards: map<State, real>): State -> Action
    requires IsTable(V) && RewardsCover(rewards)
  {
    s => if IsCell(s) then Greedy(V, rewards, s) else U
  }

  /** The best backup of every cell with respect to `V`: the backup of its greedy action. */
  ghost function BestOf(V: ValueTable, rewards: map<State, real>): State -> real
    requires IsTable(V) && RewardsCover(rewards)
  {
    s => if IsCell(s) then QValue(V, rewards, s, Greedy(V, rewards, s)) else 0.0
  }

  /** Only the first maximiser is greedy. */
  lemma GreedyCharacterised(V: ValueTable, rewards: map<State, real>, s: State, a: Action)
    requires IsTable(V) && IsCell(s) && s in rewards
    ensures a == Greedy(V, rewards, s) <==> FirstMaximiser(V, rewards, s, a)
  {
    if FirstMaximiser(V, rewards, s, a) {
      FirstMaximiserUnique(V, rewards, s, a, Greedy(V, rewards, s));
    }
  }

  /** The backup of one (cell, action) pair, summed over its outcomes. */
  method Backup(V: ValueTable, rewards: map<State, real>, s: State, a: Action) returns (value: real)
    requires IsTable(V) && IsCell(s) && s in rewards
    ensures value == QValue(V, rewards, s, a)
  {
    var outs := NextStates(s, a);
    NextStatesInTable(V, s, a);
    value := 0.0;
    for k := 0 to |outs|
      invariant value == BackupSum(outs[..k], rewards[s], V)
    {
      var o := outs[k];
      assert outs[..k + 1][..k] == outs[..k];
      value := value + o.prob * (rewards[s] + DISCOUNT * V[o.next]);
    }
    assert outs[..|outs|] == outs;
  }

  /** Tries every action in ACTIONS order and keeps one whose backup is
      strictly larger than the best so far; the first action is always
      taken, as any backup beats the absent best. */
  method BestAction(V: ValueTable, rewards: map<State, real>, s: State) returns (best: Action, bestValue: real)
    requires IsTable(V) && IsCell(s) && s in rewards
    ensures bestValue == QValue(V, rewards, s, best)
    ensures FirstMaximiser(V, rewards, s, best)
    ensures best == Greedy(V, rewards, s)
  {
    var chosen: Option<Action> := None;
    bestValue := 0.0;
    for k := 0 to |ACTIONS|
      invariant k == 0 <==> chosen == None
      invariant chosen != None ==>
        chosen.value == GreedyUpTo(V, rewards, s, k) && bestValue == QValue(V, rewards, s, chosen.value)
    {
      var a := ACTIONS[k];
      var total := Backup(V, rewards, s, a);
      if chosen == None || total > bestValue {
        bestValue := total;
        chosen := Some(a);
      }
    }
    best := chosen.value;
    GreedyIsScan(V, rewards, s);
  }

  function Abs(x: real): real
  {
    if x < 0.0 then -x else x
  }

  function Max(x: real, y: real): real
  {
    if y > x then y else x
  }

  /** The largest absolute change `|V[s] - W[s]|` over the non-terminal
      cells of `ss`, folded left to right from 0. */
  function MaxChange(V: ValueTable, W: ValueTable, terminals: seq<State>, ss: seq<State>): real
    requires forall s :: s in ss ==> s in V && s in W
  {
    if ss == [] then 0.0
    else
      var d := MaxChange(V, W, terminals, ss[..|ss| - 1]);
      var s := ss[|ss| - 1];
      if s in terminals then d else Max(d, Abs(V[s] - W[s]))
  }

  /** MaxChange is non-negative, bounds every non-terminal change, and is 0
      or attained by some non-terminal cell. */
  lemma {:induction false} MaxChangeIsLargest(V: ValueTable, W: ValueTable, terminals: seq<State>, ss: seq<State>)
    requires forall s :: s in ss ==> s in V && s in W
    ensures MaxChange(V, W, terminals, ss) >= 0.0
    ensures forall s :: s in ss && s !in terminals ==> Abs(V[s] - W[s]) <= MaxChange(V, W, terminals, ss)
    ensures MaxChange(V, W, terminals, ss) == 0.0
      || exists s :: s in ss && s !in terminals && MaxChange(V, W, terminals, ss) == Abs(V[s] - W[s])
  {
    if ss != [] {
      var pre := ss[..|ss| - 1];
      MaxChangeIsLargest(V, W, terminals, pre);
      assert ss == pre + [ss[|ss| - 1]];
      var d := MaxChange(V, W, terminals, pre);
      if d != 0.0 && MaxChange(V, W, terminals, ss) == d {
        var t :| t in pre && t !in terminals && d == Abs(V[t] - W[t]);
        assert t in ss;
      }
    }
  }

  /** MaxChange reads `W` only at the cells of `ss`. */
  lemma {:induction false} MaxChangeLocal(V: ValueTable, W: ValueTable, W': ValueTable, terminals: seq<State>, ss: seq<State>)
    requires forall s :: s in ss ==> s in V && s in W && s in W' && W[s] == W'[s]
    ensures MaxChange(V, W, terminals, ss) == MaxChange(V, W', terminals, ss)
  {
    if ss != [] {
      MaxChangeLocal(V, W, W', terminals, ss[..|ss| - 1]);
    }
  }

  /** With a positive threshold, the fold stays below it exactly when every
      non-terminal change does. */
  lemma MaxChangeBelow(V: ValueTable, W: ValueTable, terminals: seq<State>, ss: seq<State>, theta: real)
    requires forall s :: s in ss ==> s in V && s in W
    requires theta > 0.0
    ensures MaxChange(V, W, terminals, ss) < theta
      <==> forall s :: s in ss && s !in terminals ==> Abs(V[s] - W[s]) < theta
  {
    MaxChangeIsLargest(V, W, terminals, ss);
  }

  /** The delta of one sweep: the largest change over the non-terminal cells
      of the grid, visited in row-major order. */
  function SweepChange(V: ValueTable, W: ValueTable, terminals: seq<State>): real
    requires IsTable(V) && IsTable(W)
  {
    StatesAreCells();
    MaxChange(V, W, terminals, STATES)
  }

  /** A sweep's delta is below a positive threshold exactly when the change
      of every non-terminal cell of the grid is. */
  lemma SweepChangeBelow(V: ValueTable, W: ValueTable, terminals: seq<State>, theta: real)
    requires IsTable(V) && IsTable(W) && theta > 0.0
    ensures SweepChange(V, W, terminals) < theta
      <==> forall s :: IsCell(s) && s !in terminals ==> Abs(V[s] - W[s]) < theta
  {
    StatesAreCells();
    MaxChangeBelow(V, W, terminals, STATES, theta);
  }
}
