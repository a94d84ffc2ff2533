/** The keys of the Q-table (Code/Learner.py): the discretized `State` a zone manager observes,
 *  the `Action` of placing a task on a fog node, their text forms, and the distances used to
 *  match an unseen key to a stored one. Also the reward and the two update rules. */
module LearnerKeys {
  import opened Wrappers
  import opened PyText
  import Config

  // ---------------------------------------------------------------------------
  // Discretization: `np.digitize(value, np.linspace(lo, hi, DISCRETE_LEVELS))`.

  /** Distance between two neighbouring bin edges. */
  function BinWidth(lo: real, hi: real): real
  {
    (hi - lo) / (Config.DiscreteLevels - 1) as real
  }

  /** The `j`-th of the evenly spaced bin edges from `lo` to `hi`. */
  function BinEdge(lo: real, hi: real, j: nat): real
    requires j < Config.DiscreteLevels
  {
    if j == Config.DiscreteLevels - 1 then hi else lo + j as real * BinWidth(lo, hi)
  }

  /** Number of edges among the `j`-th and later ones that lie at or below `v`. */
  function EdgesAtOrBelow(v: real, lo: real, hi: real, j: nat): (n: nat)
    requires j <= Config.DiscreteLevels
    ensures n <= Config.DiscreteLevels - j
    decreases Config.DiscreteLevels - j
  {
    if j == Config.DiscreteLevels then 0
    else (if BinEdge(lo, hi, j) <= v then 1 else 0) + EdgesAtOrBelow(v, lo, hi, j + 1)
  }

  /** `np.digitize` with increasing bins: the index of the first edge above `v`,
   *  0 below the first edge and DISCRETE_LEVELS at or above the last. */
  function Discretize(v: real, lo: real, hi: real): (level: nat)
    ensures level <= Config.DiscreteLevels
  {
    EdgesAtOrBelow(v, lo, hi, 0)
  }

  /** The level is the number of the five edges at or below `v`, written out. */
  lemma DiscretizeUnfolded(v: real, lo: real, hi: real)
    ensures Discretize(v, lo, hi)
         == (if BinEdge(lo, hi, 0) <= v then 1 else 0) + (if BinEdge(lo, hi, 1) <= v then 1 else 0)
          + (if BinEdge(lo, hi, 2) <= v then 1 else 0) + (if BinEdge(lo, hi, 3) <= v then 1 else 0)
          + (if BinEdge(lo, hi, 4) <= v then 1 else 0)
  {
    assert EdgesAtOrBelow(v, lo, hi, 5) == 0;
    assert EdgesAtOrBelow(v, lo, hi, 4) == (if BinEdge(lo, hi, 4) <= v then 1 else 0);
    assert EdgesAtOrBelow(v, lo, hi, 3) == (if BinEdge(lo, hi, 3) <= v then 1 else 0) + EdgesAtOrBelow(v, lo, hi, 4);
    assert EdgesAtOrBelow(v, lo, hi, 2) == (if BinEdge(lo, hi, 2) <= v then 1 else 0) + EdgesAtOrBelow(v, lo, hi, 3);
    assert EdgesAtOrBelow(v, lo, hi, 1) == (if BinEdge(lo, hi, 1) <= v then 1 else 0) + EdgesAtOrBelow(v, lo, hi, 2);
  }

  /** For `lo < hi` the edges are `lo`, three evenly spaced points, and `hi`, increasing. */
  lemma EdgesIncrease(lo: real, hi: real)
    requires lo < hi
    ensures BinEdge(lo, hi, 0) == lo && BinEdge(lo, hi, 4) == hi
    ensures BinEdge(lo, hi, 0) < BinEdge(lo, hi, 1) < BinEdge(lo, hi, 2)
            < BinEdge(lo, hi, 3) < BinEdge(lo, hi, 4)
  {
    var w := BinWidth(lo, hi);
    assert w * 4.0 == hi - lo;
  }

  /** The level exceeds `m` exactly when `v` reached the `m`-th edge. */
  lemma DiscretizeLevels(v: real, lo: real, hi: real, m: nat)
    requires lo < hi && m < Config.DiscreteLevels
    ensures Discretize(v, lo, hi) > m <==> BinEdge(lo, hi, m) <= v
  {
    DiscretizeUnfolded(v, lo, hi);
    EdgesIncrease(lo, hi);
  }

  /** Below the first edge the level is 0; at or above the last it is DISCRETE_LEVELS. */
  lemma DiscretizeEnds(v: real, lo: real, hi: real)
    requires lo < hi
    ensures Discretize(v, lo, hi) == 0 <==> v < lo
    ensures Discretize(v, lo, hi) == Config.DiscreteLevels <==> hi <= v
  {
    DiscretizeLevels(v, lo, hi, 0);
    DiscretizeLevels(v, lo, hi, Config.DiscreteLevels - 1);
  }

  lemma {:induction false} EdgesMonotone(v: real, w: real, lo: real, hi: real, j: nat)
    requires v <= w && j <= Config.DiscreteLevels
    ensures EdgesAtOrBelow(v, lo, hi, j) <= EdgesAtOrBelow(w, lo, hi, j)
    decreases Config.DiscreteLevels - j
  {
    if j < Config.DiscreteLevels {
      EdgesMonotone(v, w, lo, hi, j + 1);
    }
  }

  /** A larger observation never falls into a lower bin. */
  lemma DiscretizeMonotone(v: real, w: real, lo: real, hi: real)
    requires v <= w
    ensures Discretize(v, lo, hi) <= Discretize(w, lo, hi)
  {
    EdgesMonotone(v, w, lo, hi, 0);
  }

  // ---------------------------------------------------------------------------
  // States and actions.

  /** What a zone manager observes: one tuple (x, y, speed, angle, power) per fog node and
   *  one tuple (power_needed, size, deadline, creator x, y, speed, angle) for the task,
   *  every entry discretized. */
  datatype StateData = StateData(fogNodesData: seq<seq<int>>, taskData: seq<int>)

  /** A state object. The Q-table is keyed by the object, so two states with equal data
   *  are still two keys. */
  class State {
    const data: StateData

    constructor (data: StateData)
      ensures this.data == data
    {
      this.data := data;
    }
  }

  /** The raw (not discretized) attributes of the fog node a task was placed on. */
  datatype ActionData = ActionData(id: string, x: real, y: real, speed: real, angle: real, power: real)

  /** An action object, keyed by identity in the Q-table like a state. */
  class Action {
    const data: ActionData

    constructor (data: ActionData)
      ensures this.data == data
    {
      this.data := data;
    }
  }

  // ---------------------------------------------------------------------------
  // Distances. The source takes square roots; every use compares them with each other or
  // with a threshold, so the model keeps the squared sums.

  /** Sum of squared differences over the pairs `zip` forms (the shorter length). */
  function SquaredGap(u: seq<int>, v: seq<int>): (d: nat)
  {
    if |u| == 0 || |v| == 0 then 0
    else (u[0] - v[0]) * (u[0] - v[0]) + SquaredGap(u[1..], v[1..])
  }

  /** Smallest squared gap from `u` to any of `others`. */
  function NearestGap(u: seq<int>, others: seq<seq<int>>): (d: nat)
    requires |others| > 0
  {
    if |others| == 1 then SquaredGap(u, others[0])
    else
      var rest := NearestGap(u, others[1..]);
      var here := SquaredGap(u, others[0]);
      if here <= rest then here else rest
  }

  /** The nearest gap is the smallest of the gaps, and one of them. */
  lemma {:induction false} NearestGapIsSmallest(u: seq<int>, others: seq<seq<int>>)
    requires |others| > 0
    ensures forall k :: 0 <= k < |others| ==> NearestGap(u, others) <= SquaredGap(u, others[k])
    ensures exists k :: 0 <= k < |others| && NearestGap(u, others) == SquaredGap(u, others[k])
    decreases |others|
  {
    if |others| > 1 {
      NearestGapIsSmallest(u, others[1..]);
      assert forall k :: 1 <= k < |others| ==> others[k] == others[1..][k - 1];
      var k :| 0 <= k < |others[1..]| && NearestGap(u, others[1..]) == SquaredGap(u, others[1..][k]);
      assert SquaredGap(u, others[1..][k]) == SquaredGap(u, others[k + 1]);
      if SquaredGap(u, others[0]) <= NearestGap(u, others[1..]) {
        assert NearestGap(u, others) == SquaredGap(u, others[0]);
      } else {
        assert NearestGap(u, others) == SquaredGap(u, others[k + 1]);
      }
    } else {
      assert NearestGap(u, others) == SquaredGap(u, others[0]);
    }
  }

  /** Sum over the tuples of `few` of their nearest gap into `many`. */
  function GapSum(few: seq<seq<int>>, many: seq<seq<int>>): nat
    requires |few| == 0 || |many| > 0
  {
    if |few| == 0 then 0 else NearestGap(few[0], many) + GapSum(few[1..], many)
  }

  /** Square of `calculate_distance_of_states`: the fog list with fewer tuples is matched
   *  tuple by tuple into the other one, and the task tuples are compared pairwise. */
  function StateDistanceSq(a: StateData, b: StateData): nat
  {
    if |a.fogNodesData| > |b.fogNodesData|
    then GapSum(b.fogNodesData, a.fogNodesData) + SquaredGap(b.taskData, a.taskData)
    else GapSum(a.fogNodesData, b.fogNodesData) + SquaredGap(a.taskData, b.taskData)
  }

  lemma {:induction false} SquaredGapSymmetric(u: seq<int>, v: seq<int>)
    ensures SquaredGap(u, v) == SquaredGap(v, u)
    decreases |u|
  {
    if |u| > 0 && |v| > 0 {
      SquaredGapSymmetric(u[1..], v[1..]);
    }
  }

  lemma {:induction false} SquaredGapSelf(u: seq<int>)
    ensures SquaredGap(u, u) == 0
    decreases |u|
  {
    if |u| > 0 {
      SquaredGapSelf(u[1..]);
    }
  }

  lemma {:induction false} GapSumInto(few: seq<seq<int>>, many: seq<seq<int>>)
    requires |many| > 0
    requires forall k :: 0 <= k < |few| ==> few[k] in many
    ensures GapSum(few, many) == 0
    decreases |few|
  {
    if |few| > 0 {
      var j :| 0 <= j < |many| && many[j] == few[0];
      SquaredGapSelf(few[0]);
      NearestGapIsSmallest(few[0], many);
      assert NearestGap(few[0], many) <= SquaredGap(few[0], many[j]);
      GapSumInto(few[1..], many);
    }
  }

  /** Every state is at distance 0 from itself, so a stored key always matches itself. */
  lemma StateDistanceSelf(a: StateData)
    ensures StateDistanceSq(a, a) == 0
  {
    if |a.fogNodesData| > 0 {
      GapSumInto(a.fogNodesData, a.fogNodesData);
    }
    SquaredGapSelf(a.taskData);
  }

  /** When the fog lists differ in length the shorter one is always the one matched, so the
   *  distance does not depend on the order of the arguments. */
  lemma StateDistanceSymmetricUnequal(a: StateData, b: StateData)
    requires |a.fogNodesData| != |b.fogNodesData|
    ensures StateDistanceSq(a, b) == StateDistanceSq(b, a)
  {
    SquaredGapSymmetric(a.taskData, b.taskData);
  }

  /** With fog lists of equal length only the first argument's tuples are matched, so the
   *  distance is one-directional: here it is 0 one way and 1 the other. */
  lemma StateDistanceOneDirectional()
    ensures StateDistanceSq(StateData([[0], [0]], []), StateData([[0], [1]], [])) == 0
    ensures StateDistanceSq(StateData([[0], [1]], []), StateData([[0], [0]], [])) == 1
  {
    var zero, one := [0], [1];
    assert SquaredGap(zero, zero) == 0 && SquaredGap(zero, one) == 1;
    assert SquaredGap(one, zero) == 1 && SquaredGap(one, one) == 0;
    var same, other := [zero, zero], [zero, one];
    assert same[1..] == [zero] && other[1..] == [one];
    assert NearestGap(zero, other) == 0;
    assert NearestGap(zero, same) == 0;
    assert NearestGap(one, same) == 1;
    var none: seq<seq<int>> := [];
    assert [zero][1..] == none && [one][1..] == none;
    assert GapSum([zero], other) == NearestGap(zero, other) + GapSum(none, other);
    assert GapSum(same, other) == NearestGap(zero, other) + GapSum([zero], other);
    assert GapSum([one], same) == NearestGap(one, same) + GapSum(none, same);
    assert GapSum(other, same) == NearestGap(zero, same) + GapSum([one], same);
  }

  /** Repeated fog tuples do not add distance: 37 copies of a tuple are at distance 0 from
   *  2 copies of it (with the same task tuple). */
  lemma StateDistanceIgnoresCopies(u: seq<int>, task: seq<int>)
    ensures StateDistanceSq(StateData(seq(37, _ => u), task), StateData(seq(2, _ => u), task)) == 0
  {
    var many := seq(37, _ => u);
    var few := seq(2, _ => u);
    assert forall k :: 0 <= k < |few| ==> few[k] == many[0];
    GapSumInto(few, many);
    SquaredGapSelf(task);
  }

  lemma ProductPositive(u: real, v: real)
    requires u > 0.0 && v > 0.0
    ensures u * v > 0.0
  {
  }

  /** `math.sqrt(d) <= bound` on a squared distance, with `bound` not negative: comparing
   *  the squares decides the same way. */
  lemma SqrtAtMost(root: real, square: real, bound: real)
    requires root >= 0.0 && root * root == square && bound >= 0.0
    ensures root <= bound <==> square <= bound * bound
  {
    if root > bound {
      ProductPositive(root - bound, root + bound);
    } else if root < bound {
      ProductPositive(bound - root, bound + root);
    }
  }

  /** Square of `calculate_distance_of_actions`: the five numeric fields, the id ignored. */
  function ActionDistanceSq(a: ActionData, b: ActionData): (d: real)
    ensures d >= 0.0
    ensures a.x == b.x && a.y == b.y && a.speed == b.speed && a.angle == b.angle && a.power == b.power ==> d == 0.0
  {
    (a.x - b.x) * (a.x - b.x) + (a.y - b.y) * (a.y - b.y) + (a.speed - b.speed) * (a.speed - b.speed)
      + (a.angle - b.angle) * (a.angle - b.angle) + (a.power - b.power) * (a.power - b.power)
  }

  lemma ActionDistanceSymmetric(a: ActionData, b: ActionData)
    ensures ActionDistanceSq(a, b) == ActionDistanceSq(b, a)
  {
  }

  /** Both nearest-key thresholds are 10, compared on squared distances as 100. */
  const StateThresholdSq: real := Config.NearestStateDistanceThreshold * Config.NearestStateDistanceThreshold
  const ActionThresholdSq: real := Config.NearestActionDistanceThreshold * Config.NearestActionDistanceThreshold

  // ---------------------------------------------------------------------------
  // Reward and update rules.

  /** `get_reward`: +10 for a task on time, -10 for a missed deadline, 20 less if migrated. */
  function Reward(deadlineMissed: bool, migrated: bool): (r: int)
    ensures r == 10 <==> !deadlineMissed && !migrated
    ensures r == -10 <==> deadlineMissed != migrated
    ensures r == -30 <==> deadlineMissed && migrated
  {
    (if deadlineMissed then -10 else 10) - (if migrated then 20 else 0)
  }

  const Alpha: real := 0.1
  const Gamma: real := 0.6
  const Epsilon: real := 0.1

  /** Q-learning step `q + alpha * (reward + gamma * maxNext - q)`. */
  function QLearningStep(q: real, reward: real, maxNext: real): (q': real)
    ensures q' - (reward + Gamma * maxNext) == (1.0 - Alpha) * (q - (reward + Gamma * maxNext))
  {
    q + Alpha * (reward + Gamma * maxNext - q)
  }

  const DiscountFactor: real := 0.99
  const LearningRate: real := 0.01

  /** The mean-value variant's step `q + lr * (reward + discount * value - q)`. */
  function MeanValueStep(q: real, reward: real, value: real): (q': real)
    ensures q' - (reward + DiscountFactor * value) == (1.0 - LearningRate) * (q - (reward + DiscountFactor * value))
  {
    q + LearningRate * (reward + DiscountFactor * value - q)
  }

  /** A step moves the value toward its target and never past it. */
  lemma QLearningStepBetween(q: real, reward: real, maxNext: real)
    ensures var t := reward + Gamma * maxNext;
            (q <= t ==> q <= QLearningStep(q, reward, maxNext) <= t)
            && (t <= q ==> t <= QLearningStep(q, reward, maxNext) <= q)
  {
  }
}
