/** Zone managers (Code/ZoneManagerBase.py and its four strategies, Code/ZoneManagerRandom.py,
 *  Code/ZoneManagerHeuristic.py, Code/ZoneManagerQLearning.py, Code/ZoneManagerA3C.py).
 *  A zone is a disc that owns the fog nodes inside it. It answers a user's request for a
 *  fog node with an offer, accepts the offer when the node can still take the task, and
 *  every tick releases finished tasks, sends their results home and gives up the nodes that
 *  have left it.
 *
 *  The four strategies differ only in how a zone picks a node and in what it does around
 *  placing and finishing a task; one class with a `strategy` field stands for the four
 *  subclasses. The random draws and the predicted travel cost of a node (which needs square
 *  roots and trigonometry) are parameters. */
module Zones {
  import opened Wrappers
  import opened Lists
  import opened Entities
  import opened LearnerKeys
  import opened QTable
  import Learning
  import Metrics
  import Mobility

  datatype Strategy = RandomStrategy | HeuristicStrategy | QLearningStrategy | A3CStrategy
  {
    /** The strategies that own a learner. */
    predicate Learned()
    {
      QLearningStrategy? || A3CStrategy?
    }
  }

  /** `(zone name, fog node)`. */
  datatype Offer = Offer(zoneName: string, node: Node)

  // ---------------------------------------------------------------------------
  // Membership.

  /** `add_fog_node`: append the node unless it is already a member. */
  function Added(members: seq<Node>, n: Node): (r: seq<Node>)
    ensures n in r && forall m :: m in members ==> m in r
    ensures forall m :: m in r ==> m in members || m == n
  {
    if n in members then members else members + [n]
  }

  /** Adding twice is adding once. */
  lemma AddedIdempotent(members: seq<Node>, n: Node)
    ensures Added(Added(members, n), n) == Added(members, n)
  {
  }

  /** Membership never holds a node twice. */
  lemma AddedKeepsDistinct(members: seq<Node>, n: Node)
    requires Distinct(members)
    ensures Distinct(Added(members, n))
  {
  }

  // ---------------------------------------------------------------------------
  // Feasibility.

  /** The test of `get_possible_fog_nodes`: the node has the power the task needs, the user
   *  is within the node's radius, and the run at the current distance fits the task's slack. */
  predicate Feasible(n: Node, task: Task, user: Node)
    reads n, user
  {
    && n.power >= task.powerNeeded
    && n.InRange(user.x, user.y)
    && !NotEnoughTime(n.DistSqTo(user.x, user.y), task.execTime, task.deadlineDuration, false, false)
  }

  /** The feasible nodes, in their order. */
  function Possible(nodes: seq<Node>, task: Task, user: Node): (r: seq<Node>)
    reads nodes, user
    ensures |r| <= |nodes|
    ensures forall n :: n in r ==> n in nodes && Feasible(n, task, user)
    ensures forall n :: n in nodes && Feasible(n, task, user) ==> n in r
    decreases |nodes|
  {
    if |nodes| == 0 then []
    else
      var last := nodes[|nodes| - 1];
      Possible(nodes[..|nodes| - 1], task, user) + (if Feasible(last, task, user) then [last] else [])
  }

  /** The snapshots of the feasible nodes: the candidates the learner ranks. */
  function FeasibleSnapshots(nodes: seq<Node>, task: Task, user: Node): seq<ActionData>
    reads nodes, user
    decreases |nodes|
  {
    if |nodes| == 0 then []
    else
      var last := nodes[|nodes| - 1];
      FeasibleSnapshots(nodes[..|nodes| - 1], task, user) + (if Feasible(last, task, user) then [last.Snapshot()] else [])
  }

  lemma {:induction false} FeasibleSnapshotsOfPossible(nodes: seq<Node>, task: Task, user: Node)
    ensures FeasibleSnapshots(nodes, task, user) == Learning.Snapshots(Possible(nodes, task, user))
    decreases |nodes|
  {
    if |nodes| > 0 {
      var init := nodes[..|nodes| - 1];
      var last := nodes[|nodes| - 1];
      FeasibleSnapshotsOfPossible(init, task, user);
      if Feasible(last, task, user) {
        var p := Possible(init, task, user) + [last];
        assert p[..|p| - 1] == Possible(init, task, user);
      }
    }
  }

  /** The filter keeps the order: filtering a concatenation filters each part. */
  lemma {:induction false} PossibleConcat(a: seq<Node>, b: seq<Node>, task: Task, user: Node)
    ensures Possible(a + b, task, user) == Possible(a, task, user) + Possible(b, task, user)
    decreases |b|
  {
    if |b| == 0 {
      assert a + b == a;
    } else {
      var b' := b[..|b| - 1];
      assert (a + b)[..|a + b| - 1] == a + b';
      PossibleConcat(a, b', task, user);
    }
  }

  // ---------------------------------------------------------------------------
  // The heuristic choice: farthest first, then the cheapest of the first ten.

  /** How many nodes `iterate_over_outputs` looks at before it stops. */
  const BranchingFactor: nat := 10

  /** Each node with its squared distance to the user. */
  function Keyed(nodes: seq<Node>, user: Node): (r: seq<(Node, real)>)
    reads nodes, user
    ensures |r| == |nodes|
    ensures forall i {:trigger r[i]} :: 0 <= i < |nodes| ==> r[i] == (nodes[i], nodes[i].DistSqTo(user.x, user.y))
    decreases |nodes|
  {
    if |nodes| == 0 then []
    else
      var last := nodes[|nodes| - 1];
      Keyed(nodes[..|nodes| - 1], user) + [(last, last.DistSqTo(user.x, user.y))]
  }

  predicate FarthestFirst(s: seq<(Node, real)>)
  {
    forall i, j :: 0 <= i < j < |s| ==> s[i].1 >= s[j].1
  }

  /** Put `p` before the first element that is not farther away than it. */
  function InsertByDistance(p: (Node, real), s: seq<(Node, real)>): (r: seq<(Node, real)>)
    ensures |r| == |s| + 1
    ensures multiset(r) == multiset(s) + multiset{p}
  {
    if |s| == 0 || s[0].1 <= p.1 then [p] + s
    else
      assert s == [s[0]] + s[1..];
      [s[0]] + InsertByDistance(p, s[1..])
  }

  /** Python's `sorted` with key minus the distance: farthest first, and nodes at the same
   *  distance in their original order (each element is inserted in front of every later one
   *  at the same distance). Sorting on the squared distance gives the same order. */
  function SortByDistance(s: seq<(Node, real)>): (r: seq<(Node, real)>)
    ensures |r| == |s|
  {
    if |s| == 0 then [] else InsertByDistance(s[0], SortByDistance(s[1..]))
  }

  lemma {:induction false} InsertKeepsOrder(p: (Node, real), s: seq<(Node, real)>)
    requires FarthestFirst(s)
    ensures FarthestFirst(InsertByDistance(p, s))
  {
    if |s| > 0 && s[0].1 > p.1 {
      InsertKeepsOrder(p, s[1..]);
      var r := InsertByDistance(p, s[1..]);
      assert r[0] == p || r[0] == s[1];
    }
  }

  /** The sort orders by distance, farthest first, and loses or adds nothing. */
  lemma SortByDistanceSorts(s: seq<(Node, real)>)
    ensures FarthestFirst(SortByDistance(s))
    ensures multiset(SortByDistance(s)) == multiset(s)
  {
    SortByDistanceOrders(s);
    SortByDistancePermutes(s);
  }

  lemma {:induction false} SortByDistanceOrders(s: seq<(Node, real)>)
    ensures FarthestFirst(SortByDistance(s))
  {
    if |s| > 0 {
      SortByDistanceOrders(s[1..]);
      InsertKeepsOrder(s[0], SortByDistance(s[1..]));
    }
  }

  lemma {:induction false} SortByDistancePermutes(s: seq<(Node, real)>)
    ensures multiset(SortByDistance(s)) == multiset(s)
  {
    if |s| > 0 {
      SortByDistancePermutes(s[1..]);
      assert s == [s[0]] + s[1..];
      assert multiset(s) == multiset{s[0]} + multiset(s[1..]);
    }
  }

  /** The sort is stable: when every node is at the same distance the order is unchanged. */
  lemma {:induction false} SortByDistanceStable(s: seq<(Node, real)>)
    requires forall i :: 0 <= i < |s| ==> s[i].1 == s[0].1
    ensures SortByDistance(s) == s
  {
    if |s| > 0 {
      SortByDistanceStable(s[1..]);
      assert SortByDistance(s[1..]) == s[1..];
      assert s == [s[0]] + s[1..];
    }
  }

  function NodesOf(s: seq<(Node, real)>): (r: seq<Node>)
    ensures |r| == |s| && forall i :: 0 <= i < |s| ==> r[i] == s[i].0
  {
    seq(|s|, i requires 0 <= i < |s| => s[i].0)
  }

  /** The nodes in the order `iterate_over_outputs` scans them. */
  function ScanOrder(nodes: seq<Node>, user: Node): (r: seq<Node>)
    reads nodes, user
  {
    NodesOf(SortByDistance(Keyed(nodes, user)))
  }

  /** The scan order holds the same nodes as the input. */
  lemma ScanOrderMembers(nodes: seq<Node>, user: Node)
    ensures |ScanOrder(nodes, user)| == |nodes|
    ensures forall n :: n in ScanOrder(nodes, user) <==> n in nodes
  {
    var k := Keyed(nodes, user);
    SortByDistanceSorts(k);
    var s := SortByDistance(k);
    forall n | n in ScanOrder(nodes, user)
      ensures n in nodes
    {
      var i :| 0 <= i < |s| && s[i].0 == n;
      assert s[i] in multiset(k);
      var j :| 0 <= j < |k| && k[j] == s[i];
    }
    forall n | n in nodes
      ensures n in ScanOrder(nodes, user)
    {
      var j :| 0 <= j < |nodes| && nodes[j] == n;
      assert k[j] in multiset(s);
      var i :| 0 <= i < |s| && s[i] == k[j];
      assert ScanOrder(nodes, user)[i] == n;
    }
  }

  /** The scan order is farthest first. */
  lemma ScanOrderFarthestFirst(nodes: seq<Node>, user: Node)
    ensures forall i, j :: 0 <= i < j < |ScanOrder(nodes, user)| ==>
              ScanOrder(nodes, user)[i].DistSqTo(user.x, user.y) >= ScanOrder(nodes, user)[j].DistSqTo(user.x, user.y)
  {
    var k := Keyed(nodes, user);
    SortByDistanceSorts(k);
    var s := SortByDistance(k);
    forall i | 0 <= i < |s|
      ensures s[i].1 == s[i].0.DistSqTo(user.x, user.y)
    {
      assert s[i] in multiset(k);
    }
  }

  /** Python's `min(nodes, key=cost)`: the first node of least cost. */
  function Cheapest(nodes: seq<Node>, cost: Node -> real): Node
    requires |nodes| > 0
  {
    nodes[FirstCheapest(nodes, cost, |nodes|)]
  }

  /** How many nodes the heuristic scan looks at. */
  function Examined(n: nat): (m: nat)
    ensures m <= n && m <= BranchingFactor
    ensures m == n || m == BranchingFactor
  {
    if n < BranchingFactor then n else BranchingFactor
  }

  /** `iterate_over_outputs`: of the first ten nodes in the scan order, the first of least
   *  cost; none for no nodes. */
  function HeuristicPick(nodes: seq<Node>, user: Node, cost: Node -> real): Node?
    reads nodes, user
  {
    var order := ScanOrder(nodes, user);
    if |order| == 0 then null else order[FirstCheapest(order, cost, Examined(|order|))]
  }

  /** The heuristic pick is a node of the input, none only for no input; no node among the
   *  first ten of the scan costs less, and every one before it costs more. */
  lemma HeuristicPickIsCheapestExamined(nodes: seq<Node>, user: Node, cost: Node -> real)
    ensures HeuristicPick(nodes, user, cost) == null <==> |nodes| == 0
    ensures HeuristicPick(nodes, user, cost) != null ==> HeuristicPick(nodes, user, cost) in nodes
    ensures |nodes| > 0 ==>
              var order := ScanOrder(nodes, user);
              var k := FirstCheapest(order, cost, Examined(|order|));
              && (forall j :: 0 <= j < Examined(|order|) ==> cost(order[k]) <= cost(order[j]))
              && (forall j :: 0 <= j < k ==> cost(order[k]) < cost(order[j]))
  {
    ScanOrderMembers(nodes, user);
    var order := ScanOrder(nodes, user);
    if |order| > 0 {
      FirstCheapestIsFirstMinimum(order, cost, Examined(|order|));
      assert order[FirstCheapest(order, cost, Examined(|order|))] in order;
    }
  }

  /** With at most ten nodes nothing is cut off: the pick costs no more than any node. */
  lemma HeuristicPickFewNodes(nodes: seq<Node>, user: Node, cost: Node -> real)
    requires 0 < |nodes| <= BranchingFactor
    ensures forall n :: n in nodes ==> cost(HeuristicPick(nodes, user, cost)) <= cost(n)
  {
    ScanOrderMembers(nodes, user);
    HeuristicPickIsCheapestExamined(nodes, user, cost);
    var order := ScanOrder(nodes, user);
    forall n | n in nodes
      ensures cost(HeuristicPick(nodes, user, cost)) <= cost(n)
    {
      assert n in order;
      var j :| 0 <= j < |order| && order[j] == n;
    }
  }

  /** `iterate_over_outputs`. */
  method IterateOverOutputs(possible: seq<Node>, user: Node, cost: Node -> real) returns (assignee: Node?)
    ensures assignee == HeuristicPick(possible, user, cost)
  {
    var order := ScanOrder(possible, user);
    var branching: int := BranchingFactor;
    assignee := null;
    var best := 0.0;
    var i := 0;
    while i < |order|
      invariant 0 <= i <= |order| && i < BranchingFactor && branching == BranchingFactor - i
      invariant i == 0 <==> assignee == null
      invariant i > 0 ==> assignee == order[FirstCheapest(order, cost, i)] && best == cost(assignee)
    {
      branching := branching - 1;
      var c := cost(order[i]);
      if assignee == null || c < best {
        assignee, best := order[i], c;
      }
      i := i + 1;
      if branching == 0 {
        break;
      }
    }
    assert i == Examined(|order|);
  }

  /** The random pick: `random.choice` draws the member at `choice` (modulo the length). */
  function RandomPick(members: seq<Node>, choice: nat): (n: Node?)
    ensures n == null <==> |members| == 0
    ensures n != null ==> n in members
  {
    if |members| == 0 then null else members[choice % |members|]
  }

  /** The choice of a learning zone among the feasible nodes `p` (whose snapshots are `cands`),
   *  against table `t` and observed state `d`: none when no node is feasible; the drawn
   *  feasible node when exploring; otherwise the table's suggestion if the state is known and
   *  the table names a node, else the cheapest feasible node. */
  function LearnedChoice(t: seq<Row>, d: StateData, p: seq<Node>, cands: seq<ActionData>, all: seq<Node>,
                         roll: real, choice: nat, cost: Node -> real): (r: Node?)
    ensures r == null <==> |p| == 0
    ensures |p| > 0 && roll < Epsilon ==> r == p[choice % |p|]
    ensures |p| > 0 && roll >= Epsilon && !ExistsState(t, d) ==> r == Cheapest(p, cost)
    ensures r != null ==> r in p || r in all
  {
    if |p| == 0 then null
    else if roll < Epsilon then p[choice % |p|]
    else if !ExistsState(t, d) then Cheapest(p, cost)
    else
      var s := Learning.Suggested(t, Learning.NearestKey(t, d), cands, all);
      if s != null then s else Cheapest(p, cost)
  }

  // ---------------------------------------------------------------------------
  // Zones.

  class Zone {
    const x: real
    const y: real
    const coverageRadius: real
    const name: string
    const strategy: Strategy
    /** The Q-table of a Q-learning or A3C zone. */
    const learner: Learning.Learner?
    var fogNodes: seq<Node>

    /** Members are distinct, and exactly the learning strategies own a well-formed table. */
    ghost predicate Valid()
      reads this, learner
    {
      && Distinct(fogNodes)
      && (strategy.Learned() <==> learner != null)
      && (learner != null ==> learner.Valid())
    }

    constructor (x: real, y: real, coverageRadius: real, name: string, strategy: Strategy)
      ensures Valid()
      ensures this.x == x && this.y == y && this.coverageRadius == coverageRadius && this.name == name
      ensures this.strategy == strategy && fogNodes == []
      ensures learner != null ==> fresh(learner) && learner.table == []
    {
      this.x, this.y, this.coverageRadius, this.name := x, y, coverageRadius, name;
      this.strategy := strategy;
      fogNodes := [];
      if strategy.Learned() {
        learner := new Learning.Learner();
      } else {
        learner := null;
      }
    }

    /** `is_within_coverage`: the point is inside the disc, boundary included. */
    predicate IsWithinCoverage(px: real, py: real)
    {
      WithinRadius(DistSq(px, py, x, y), coverageRadius)
    }

    /** The squared test decides like the source's test on the distance. */
    lemma IsWithinCoverageExact(px: real, py: real, d: real)
      requires d >= 0.0 && d * d == DistSq(px, py, x, y)
      ensures IsWithinCoverage(px, py) <==> d <= coverageRadius
    {
      WithinRadiusExact(d, DistSq(px, py, x, y), coverageRadius);
    }

    /** `add_fog_node`. */
    method AddFogNode(n: Node)
      requires Valid()
      modifies this`fogNodes
      ensures Valid()
      ensures fogNodes == Added(old(fogNodes), n)
    {
      if n !in fogNodes {
        fogNodes := fogNodes + [n];
      }
    }

    /** What `get_possible_fog_nodes` returns: every member for the heuristic strategy, the
     *  feasible members otherwise. */
    function PossibleNodes(task: Task, user: Node): (r: seq<Node>)
      reads this, fogNodes, user
    {
      if strategy.HeuristicStrategy? then fogNodes else Possible(fogNodes, task, user)
    }

    /** `get_possible_fog_nodes`. */
    method GetPossibleFogNodes(task: Task, user: Node) returns (r: seq<Node>)
      ensures r == PossibleNodes(task, user)
    {
      if strategy.HeuristicStrategy? {
        return fogNodes;
      }
      r := FilterFeasible(fogNodes, task, user);
    }

    /** Whether `create_offer` makes an offer: the user is in the zone and `find_assignee`
     *  finds a node, which it does exactly when there is a member (random and heuristic)
     *  or a feasible member (Q-learning and A3C). */
    predicate Offers(task: Task, user: Node)
      reads this, fogNodes, user
    {
      IsWithinCoverage(user.x, user.y)
      && (if strategy.Learned() then |Possible(fogNodes, task, user)| > 0 else |fogNodes| > 0)
    }

    /** `find_assignee`. `roll` and `choice` are the random draws; `cost(n)` is a node's
     *  current plus predicted distance to the user. The learning strategies ask the learner,
     *  which registers an unseen state, and fall back to the cheapest feasible node. */
    method FindAssignee(user: Node, task: Task, roll: real, choice: nat, cost: Node -> real)
      returns (assignee: Node?)
      requires Valid()
      modifies learner
      ensures Valid()
      ensures strategy.RandomStrategy? ==> assignee == RandomPick(fogNodes, choice)
      ensures strategy.HeuristicStrategy? ==> assignee == HeuristicPick(fogNodes, user, cost)
      ensures strategy.Learned() ==> assignee == old(LearnedPick(user, task, roll, choice, cost))
      ensures strategy.Learned() && old(|Possible(fogNodes, task, user)|) == 0 ==> learner.table == old(learner.table)
      ensures assignee == null <==>
                (if strategy.Learned() then old(|Possible(fogNodes, task, user)|) == 0 else |fogNodes| == 0)
      ensures assignee != null ==> assignee in fogNodes
    {
      if strategy.RandomStrategy? {
        assignee := RandomPick(fogNodes, choice);
      } else if strategy.HeuristicStrategy? {
        var possible := GetPossibleFogNodes(task, user);
        if |possible| == 0 {
          return null;
        }
        assignee := IterateOverOutputs(possible, user, cost);
        HeuristicPickIsCheapestExamined(possible, user, cost);
      } else {
        assignee := FindLearnedAssignee(user, task, roll, choice, cost);
      }
    }

    /** The node a learning zone picks in the current state (see `LearnedChoice`). */
    ghost function LearnedPick(user: Node, task: Task, roll: real, choice: nat, cost: Node -> real): Node?
      requires learner != null
      reads this, learner, fogNodes, user, task.creator
    {
      LearnedChoice(learner.table, Learning.Observed(fogNodes, task), Possible(fogNodes, task, user),
                    FeasibleSnapshots(fogNodes, task, user), fogNodes, roll, choice, cost)
    }

    /** The node `find_assignee` picks under this zone's strategy, in the current state. */
    ghost function Pick(user: Node, task: Task, roll: real, choice: nat, cost: Node -> real): Node?
      reads this, learner, fogNodes, user, task.creator
    {
      match strategy
      case RandomStrategy => RandomPick(fogNodes, choice)
      case HeuristicStrategy => HeuristicPick(fogNodes, user, cost)
      case _ => if learner == null then null else LearnedPick(user, task, roll, choice, cost)
    }

    /** `find_assignee` of the Q-learning and A3C zones. */
    method FindLearnedAssignee(user: Node, task: Task, roll: real, choice: nat, cost: Node -> real)
      returns (assignee: Node?)
      requires Valid() && strategy.Learned()
      modifies learner
      ensures Valid()
      ensures assignee == old(LearnedPick(user, task, roll, choice, cost))
      ensures old(|Possible(fogNodes, task, user)|) == 0 ==> learner.table == old(learner.table)
      ensures assignee == null <==> old(|Possible(fogNodes, task, user)|) == 0
      ensures assignee != null ==> assignee in fogNodes
    {
      ghost var pick := LearnedPick(user, task, roll, choice, cost);
      // `get_possible_fog_nodes` of a learning zone is the feasibility filter
      var possible := FilterFeasible(fogNodes, task, user);
      if |possible| == 0 {
        return null;
      }
      FeasibleSnapshotsOfPossible(fogNodes, task, user);
      ghost var cands := Learning.Snapshots(possible);
      ghost var t, d := learner.table, Learning.Observed(fogNodes, task);
      assert pick == LearnedChoice(t, d, possible, cands, fogNodes, roll, choice, cost);
      assignee := ChooseLearned(task, possible, roll, choice, cost, cands);
    }

    /** The non-empty case of `find_assignee` for a learning zone: the learner's suggestion,
     *  or the cheapest feasible node when it has none. */
    method ChooseLearned(task: Task, possible: seq<Node>, roll: real, choice: nat, cost: Node -> real,
                         ghost cands: seq<ActionData>)
      returns (assignee: Node)
      requires Valid() && strategy.Learned() && |possible| > 0 && cands == Learning.Snapshots(possible)
      modifies learner
      ensures Valid()
      ensures assignee == LearnedChoice(old(learner.table), old(Learning.Observed(fogNodes, task)),
                                        possible, cands, fogNodes, roll, choice, cost)
    {
      ghost var t := learner.table;
      ghost var d := Learning.Observed(fogNodes, task);
      var suggestion := AskLearner(task, possible, roll, choice % |possible|);
      assignee := if suggestion == null then Cheapest(possible, cost) else suggestion;
      LearnedChoiceFollows(t, d, possible, cands, fogNodes, roll, choice, cost, suggestion);
    }

    /** The learner's part of `find_assignee`, against the state before the call. */
    method AskLearner(task: Task, possible: seq<Node>, roll: real, choice: nat) returns (suggestion: Node?)
      requires Valid() && strategy.Learned() && |possible| > 0 && choice < |possible|
      modifies learner
      ensures Valid()
      ensures roll < Epsilon ==> suggestion == possible[choice]
      ensures roll >= Epsilon && !ExistsState(old(learner.table), old(Learning.Observed(fogNodes, task))) ==>
                suggestion == null
      ensures roll >= Epsilon && ExistsState(old(learner.table), old(Learning.Observed(fogNodes, task))) ==>
                suggestion == Learning.Suggested(old(learner.table),
                                                 Learning.NearestKey(old(learner.table), old(Learning.Observed(fogNodes, task))),
                                                 old(Learning.Snapshots(possible)), fogNodes)
    {
      ghost var d := Learning.Observed(fogNodes, task);
      ghost var cands := Learning.Snapshots(possible);
      suggestion := learner.GetSuggestedAssignee(fogNodes, possible, task, roll, choice);
      assert Learning.Observed(fogNodes, task) == d;
      assert Learning.Snapshots(possible) == cands;
    }

    /** `create_offer`: no offer to a user outside the zone or when no node is found;
     *  otherwise the zone's name and the node `find_assignee` picks. */
    method CreateOffer(user: Node, task: Task, roll: real, choice: nat, cost: Node -> real)
      returns (offer: Option<Offer>)
      requires Valid()
      modifies learner
      ensures Valid()
      ensures offer.Some? <==> old(Offers(task, user))
      ensures offer.Some? ==> offer.value.zoneName == name && offer.value.node in fogNodes
      ensures offer.Some? && strategy.RandomStrategy? ==> offer.value.node == RandomPick(fogNodes, choice)
      ensures offer.Some? && strategy.HeuristicStrategy? ==> offer.value.node == HeuristicPick(fogNodes, user, cost)
      ensures offer.Some? && strategy.Learned() ==> offer.value.node == old(LearnedPick(user, task, roll, choice, cost))
      ensures offer.Some? ==> offer.value.node == old(Pick(user, task, roll, choice, cost))
      ensures !IsWithinCoverage(user.x, user.y) && learner != null ==> learner.table == old(learner.table)
    {
      if !IsWithinCoverage(user.x, user.y) {
        return None;
      }
      var fog := FindAssignee(user, task, roll, choice, cost);
      if fog == null {
        return None;
      }
      offer := Some(Offer(name, fog));
    }

    /** `accept_offer`: the offered node takes the task exactly when it is still among the
     *  possible nodes; a refused offer changes nothing. A Q-learning zone then records the
     *  state it observes, after the node took the task, on the task. An A3C zone calls a
     *  `State` method the source does not define, and fails (`ok` false) after the node
     *  took the task. */
    method AcceptOffer(user: Node, task: Task, offer: Offer, ev: Metrics.Evaluator) returns (accepted: bool, ok: bool)
      requires Valid() && ev.Valid()
      modifies offer.node`tasks, offer.node`power, task`assignedNode, task`assignedAction, task`creationState, ev
      ensures Valid() && ev.Valid()
      ensures accepted == (offer.node in old(PossibleNodes(task, user)))
      ensures !accepted ==> ok && offer.node.tasks == old(offer.node.tasks) && offer.node.power == old(offer.node.power)
      ensures !accepted ==> task.assignedNode == old(task.assignedNode) && task.assignedAction == old(task.assignedAction)
      ensures !accepted ==> task.creationState == old(task.creationState) && ev.Snapshot() == old(ev.Snapshot())
      ensures !accepted ==> ev.countedIds == old(ev.countedIds)
      ensures accepted ==> ok == !strategy.A3CStrategy?
      ensures accepted ==> offer.node.tasks == old(offer.node.tasks) + [task]
      ensures accepted ==> offer.node.power == old(offer.node.power) - task.powerNeeded
      ensures accepted && !strategy.HeuristicStrategy? ==> offer.node.power >= 0.0
      ensures accepted ==> task.assignedNode == offer.node && task.assignedAction != null
                           && task.assignedAction.data == old(offer.node.Snapshot())
      ensures accepted ==> ev.countedIds == old(ev.countedIds) + [offer.node.id]
      ensures ev.deadlineMisses == old(ev.deadlineMisses) && ev.cloudTasks == old(ev.cloudTasks)
      ensures accepted && strategy.QLearningStrategy? ==>
                task.creationState != null
                && (ExistsState(learner.table, Learning.Observed(fogNodes, task)) ==>
                      task.creationState == Learning.NearestKey(learner.table, Learning.Observed(fogNodes, task)))
                && (!ExistsState(learner.table, Learning.Observed(fogNodes, task)) ==>
                      fresh(task.creationState) && task.creationState.data == Learning.Observed(fogNodes, task))
      ensures accepted && !strategy.QLearningStrategy? ==> task.creationState == old(task.creationState)
    {
      var possible := GetPossibleFogNodes(task, user);
      if offer.node !in possible {
        return false, true;
      }
      offer.node.AppendTask(task, ev);
      if strategy.QLearningStrategy? {
        RecordCreationState(task);
      } else if strategy.A3CStrategy? {
        return true, false;
      }
      return true, true;
    }

    /** The Q-learning part of `accept_offer`: the state observed from the members and the
     *  task becomes the task's creation state, as the learner's nearest stored key when it
     *  has one and as a new state otherwise. */
    method RecordCreationState(task: Task)
      requires Valid() && strategy.QLearningStrategy?
      modifies task`creationState
      ensures task.creationState != null
      ensures ExistsState(learner.table, Learning.Observed(fogNodes, task)) ==>
                task.creationState == Learning.NearestKey(learner.table, Learning.Observed(fogNodes, task))
      ensures !ExistsState(learner.table, Learning.Observed(fogNodes, task)) ==>
                fresh(task.creationState) && task.creationState.data == Learning.Observed(fogNodes, task)
    {
      ghost var d := Learning.Observed(fogNodes, task);
      var state := learner.GetFromFogNodesAndTask(fogNodes, task);
      task.SetCreationState(state);
      assert Learning.Observed(fogNodes, task) == d;
    }

    /** `send_task_result_to_owner`: find the task's creator in the graph by id (a missing
     *  one makes the source fail, `ok` false, before anything changes), deliver the result
     *  and check the deadline. A Q-learning zone then observes the next state, computes the
     *  reward from the task's final flags and updates its table for the state and action
     *  recorded on the task; the source fails there when either is missing. An A3C zone
     *  fails observing the next state, after delivery. */
    method SendTaskResultToOwner(task: Task, graph: Mobility.MobilityGraph, clock: Metrics.Clock,
                                 ev: Metrics.Evaluator) returns (ok: bool, ghost next: State?)
      requires Valid() && ev.Valid()
      modifies task`isDeadlineMissed, task`assignedNode, ev, learner
      ensures Valid() && ev.Valid() && ev.countedIds == old(ev.countedIds)
      ensures WithId(graph.nodes, task.creator.id) == null ==>
                !ok && task.isDeadlineMissed == old(task.isDeadlineMissed) && task.assignedNode == old(task.assignedNode)
                && ev.Snapshot() == old(ev.Snapshot())
      ensures WithId(graph.nodes, task.creator.id) != null ==>
                task.isDeadlineMissed == (clock.time > task.deadline) && task.assignedNode == null
                && ev.Snapshot() == (if task.isDeadlineMissed then old(ev.Snapshot()).(
                                       deadlineMisses := old(ev.deadlineMisses) + 1,
                                       currentStepDeadlineMisses := old(ev.currentStepDeadlineMisses) + 1)
                                     else old(ev.Snapshot()))
      ensures ok <==> WithId(graph.nodes, task.creator.id) != null && !strategy.A3CStrategy?
                      && (strategy.QLearningStrategy? ==> task.creationState != null && task.assignedAction != null)
      ensures ok && strategy.QLearningStrategy? ==>
                next != null
                && (ExistsState(old(learner.table), old(Learning.Observed(fogNodes, task))) ==>
                      next == Learning.NearestKey(old(learner.table), old(Learning.Observed(fogNodes, task))))
                && (!ExistsState(old(learner.table), old(Learning.Observed(fogNodes, task))) ==>
                      fresh(next) && next.data == old(Learning.Observed(fogNodes, task)))
                && learner.table == QLearningUpdate(old(learner.table), task.creationState, task.assignedAction,
                                                    Reward(task.isDeadlineMissed, task.isMigrated), next)
      ensures !(ok && strategy.QLearningStrategy?) && learner != null ==> learner.table == old(learner.table)
    {
      next := null;
      ghost var d := Learning.Observed(fogNodes, task);
      ghost var counters := ev.Snapshot();
      var owner := graph.GetNode(task.creator.id);
      assert Learning.Observed(fogNodes, task) == d && ev.Snapshot() == counters;
      if owner == null {
        ok := false;
      } else {
        ok, next := Deliver(owner, task, clock, ev);
      }
    }

    /** `send_task_result_to_owner` once the owner is found. */
    method Deliver(owner: Node, task: Task, clock: Metrics.Clock, ev: Metrics.Evaluator)
      returns (ok: bool, ghost next: State?)
      requires Valid() && ev.Valid()
      modifies task`isDeadlineMissed, task`assignedNode, ev, learner
      ensures Valid() && ev.Valid() && ev.countedIds == old(ev.countedIds)
      ensures task.isDeadlineMissed == (clock.time > task.deadline) && task.assignedNode == null
      ensures ev.Snapshot() == (if task.isDeadlineMissed then old(ev.Snapshot()).(
                                  deadlineMisses := old(ev.deadlineMisses) + 1,
                                  currentStepDeadlineMisses := old(ev.currentStepDeadlineMisses) + 1)
                                else old(ev.Snapshot()))
      ensures ok <==> !strategy.A3CStrategy?
                      && (strategy.QLearningStrategy? ==> task.creationState != null && task.assignedAction != null)
      ensures ok && strategy.QLearningStrategy? ==>
                next != null
                && (ExistsState(old(learner.table), old(Learning.Observed(fogNodes, task))) ==>
                      next == Learning.NearestKey(old(learner.table), old(Learning.Observed(fogNodes, task))))
                && (!ExistsState(old(learner.table), old(Learning.Observed(fogNodes, task))) ==>
                      fresh(next) && next.data == old(Learning.Observed(fogNodes, task)))
                && learner.table == QLearningUpdate(old(learner.table), task.creationState, task.assignedAction,
                                                    Reward(task.isDeadlineMissed, task.isMigrated), next)
      ensures !(ok && strategy.QLearningStrategy?) && learner != null ==> learner.table == old(learner.table)
    {
      ghost var d := Learning.Observed(fogNodes, task);
      owner.DeliverTaskResult(task, clock, ev);
      assert Learning.Observed(fogNodes, task) == d;
      ghost var counters := ev.Snapshot();
      ghost var missed := task.isDeadlineMissed;
      ok, next := AfterDelivery(task, clock);
      assert ev.Snapshot() == counters && task.isDeadlineMissed == missed;
    }

    /** What `send_task_result_to_owner` does after delivery, by strategy. */
    method AfterDelivery(task: Task, clock: Metrics.Clock) returns (ok: bool, ghost next: State?)
      requires Valid()
      modifies task`isDeadlineMissed, learner
      ensures Valid()
      ensures task.isDeadlineMissed == (if strategy.A3CStrategy? then old(task.isDeadlineMissed) else clock.time > task.deadline)
      ensures ok <==> !strategy.A3CStrategy?
                      && (strategy.QLearningStrategy? ==> task.creationState != null && task.assignedAction != null)
      ensures ok && strategy.QLearningStrategy? ==>
                next != null
                && (ExistsState(old(learner.table), old(Learning.Observed(fogNodes, task))) ==>
                      next == Learning.NearestKey(old(learner.table), old(Learning.Observed(fogNodes, task))))
                && (!ExistsState(old(learner.table), old(Learning.Observed(fogNodes, task))) ==>
                      fresh(next) && next.data == old(Learning.Observed(fogNodes, task)))
                && learner.table == QLearningUpdate(old(learner.table), task.creationState, task.assignedAction,
                                                    Reward(task.isDeadlineMissed, task.isMigrated), next)
      ensures !(ok && strategy.QLearningStrategy?) && learner != null ==> learner.table == old(learner.table)
    {
      next := null;
      if strategy.QLearningStrategy? {
        ok, next := LearnFromResult(task, clock);
      } else if strategy.A3CStrategy? {
        ok := false;
      } else {
        var _ := task.CheckDeadlineMissed(clock);
        ok := true;
      }
    }

    /** The Q-learning part of `send_task_result_to_owner`, after delivery. */
    method LearnFromResult(task: Task, clock: Metrics.Clock) returns (ok: bool, ghost next: State?)
      requires Valid() && strategy.QLearningStrategy?
      modifies task`isDeadlineMissed, learner
      ensures Valid()
      ensures task.isDeadlineMissed == (clock.time > task.deadline)
      ensures ok <==> task.creationState != null && task.assignedAction != null
      ensures ok ==>
                next != null
                && (ExistsState(old(learner.table), old(Learning.Observed(fogNodes, task))) ==>
                      next == Learning.NearestKey(old(learner.table), old(Learning.Observed(fogNodes, task))))
                && (!ExistsState(old(learner.table), old(Learning.Observed(fogNodes, task))) ==>
                      fresh(next) && next.data == old(Learning.Observed(fogNodes, task)))
                && learner.table == QLearningUpdate(old(learner.table), task.creationState, task.assignedAction,
                                                    Reward(task.isDeadlineMissed, task.isMigrated), next)
      ensures !ok ==> learner.table == old(learner.table)
    {
      var state := learner.GetFromFogNodesAndTask(fogNodes, task);
      var _ := task.CheckDeadlineMissed(clock);
      var reward := Reward(task.isDeadlineMissed, task.isMigrated);
      if task.creationState == null || task.assignedAction == null {
        return false, state;
      }
      learner.UpdateQTableByFinishedTask(task, state, reward);
      return true, state;
    }

    /** Where the sweep sends the result of a task whose creator is at (px, py): this zone
     *  when it covers the creator, otherwise the zone of the roster nearest the creator. */
    function RouteTarget(roster: seq<Zone>, px: real, py: real): (z: Zone?)
      ensures z != null ==> z == this || z in roster
      ensures IsWithinCoverage(px, py) ==> z == this
    {
      if IsWithinCoverage(px, py) then this else NearestOf(roster, px, py)
    }

    /** One completed task of the sweep of `update`: look up its creator (a missing one makes
     *  the source fail), pick the zone to deliver through, and deliver; a delivery through
     *  another zone first counts a migration and marks the task migrated, so the reward
     *  that zone computes carries the migration penalty. An empty roster leaves no zone to
     *  deliver through, and the source fails. */
    method RouteResult(task: Task, roster: seq<Zone>, graph: Mobility.MobilityGraph, clock: Metrics.Clock,
                       ev: Metrics.Evaluator) returns (ok: bool, ghost next: State?)
      requires Valid() && AllValid(roster) && ev.Valid()
      modifies task`isMigrated, task`isDeadlineMissed, task`assignedNode, ev, learner, LearnersOf(roster)
      ensures Valid() && AllValid(roster) && ev.Valid() && ev.countedIds == old(ev.countedIds)
      ensures WithId(graph.nodes, task.creator.id) == null ==>
                !ok && task.isMigrated == old(task.isMigrated) && task.assignedNode == old(task.assignedNode)
                && ev.Snapshot() == old(ev.Snapshot())
      ensures var creator := WithId(graph.nodes, task.creator.id);
              creator != null ==>
                var target := RouteTarget(roster, creator.x, creator.y);
                && task.isMigrated == (old(task.isMigrated) || target != this)
                && ev.migrationsCount == old(ev.migrationsCount) + (if target != this then 1 else 0)
                && (target != null ==>
                      task.assignedNode == null && task.isDeadlineMissed == (clock.time > task.deadline)
                      && ev.deadlineMisses == old(ev.deadlineMisses) + (if task.isDeadlineMissed then 1 else 0))
                && (ok <==> target != null && !target.strategy.A3CStrategy?
                            && (target.strategy.QLearningStrategy? ==>
                                  task.creationState != null && task.assignedAction != null))
                && (ok && target.strategy.QLearningStrategy? ==>
                      next != null
                      && target.learner.table
                         == QLearningUpdate(old(target.learner.table), task.creationState, task.assignedAction,
                                            Reward(task.isDeadlineMissed, task.isMigrated), next))
    {
      next := null;
      var creator := graph.GetNode(task.creator.id);
      if creator == null {
        return false, null;
      }
      var nearest := NearestZone(roster, creator.x, creator.y);
      if IsWithinCoverage(creator.x, creator.y) {
        nearest := this;
      }
      ok, next := SendThrough(nearest, task, roster, graph, clock, ev);
    }

    /** The delivery step of the sweep through zone `target`: through this zone directly;
     *  through another one after counting a migration and marking the task migrated; with
     *  no zone at all the source fails after the count. */
    method SendThrough(target: Zone?, task: Task, roster: seq<Zone>, graph: Mobility.MobilityGraph,
                       clock: Metrics.Clock, ev: Metrics.Evaluator) returns (ok: bool, ghost next: State?)
      requires Valid() && AllValid(roster) && ev.Valid()
      requires target == null || target == this || target in roster
      requires WithId(graph.nodes, task.creator.id) != null
      modifies task`isMigrated, task`isDeadlineMissed, task`assignedNode, ev, learner, LearnersOf(roster)
      ensures Valid() && AllValid(roster) && ev.Valid() && ev.countedIds == old(ev.countedIds)
      ensures task.isMigrated == (old(task.isMigrated) || target != this)
      ensures ev.migrationsCount == old(ev.migrationsCount) + (if target != this then 1 else 0)
      ensures target != null ==>
                task.assignedNode == null && task.isDeadlineMissed == (clock.time > task.deadline)
                && ev.deadlineMisses == old(ev.deadlineMisses) + (if task.isDeadlineMissed then 1 else 0)
      ensures ok <==> target != null && !target.strategy.A3CStrategy?
                      && (target.strategy.QLearningStrategy? ==> task.creationState != null && task.assignedAction != null)
      ensures ok && target.strategy.QLearningStrategy? ==>
                next != null
                && target.learner.table == QLearningUpdate(old(target.learner.table), task.creationState,
                                                           task.assignedAction,
                                                           Reward(task.isDeadlineMissed, task.isMigrated), next)
    {
      next := null;
      if target == this {
        ok, next := SendTaskResultToOwner(task, graph, clock, ev);
      } else {
        ev.IncrementMigrations();
        task.isMigrated := true;
        if target == null {
          ok := false;
        } else {
          ok, next := target.SendTaskResultToOwner(task, graph, clock, ev);
        }
      }
    }

    /** One completed task of the walk: take it off the node and route its result. Whether
     *  the tasks `rest` are complete does not change. */
    method ReleaseOne(node: Node, task: Task, roster: seq<Zone>, graph: Mobility.MobilityGraph,
                      clock: Metrics.Clock, ev: Metrics.Evaluator, ghost rest: seq<Task>) returns (ok: bool)
      requires Valid() && AllValid(roster) && ev.Valid()
      requires task in node.tasks && task !in rest
      modifies node`tasks, node`power, task, ev, learner, LearnersOf(roster)
      ensures Valid() && AllValid(roster) && ev.Valid()
      ensures node.tasks == RemoveFirst(old(node.tasks), task)
      ensures node.power == old(node.power) + task.powerNeeded
      ensures forall t :: t in rest ==> Completed(node, t, clock) == old(Completed(node, t, clock))
    {
      node.RemoveTask(task);
      ghost var next: State?;
      ok, next := RouteResult(task, roster, graph, clock, ev);
    }

    /** One turn of the task loop of `update`, at index `i` of the live list. The ghost
     *  arguments follow the walk over the original list `s` (see `Lists.WalkAt`). */
    method ReleaseStep(node: Node, roster: seq<Zone>, graph: Mobility.MobilityGraph, clock: Metrics.Clock,
                       ev: Metrics.Evaluator, i: nat, ghost s: seq<Task>, ghost gone: seq<bool>, ghost j: nat,
                       ghost done: seq<Task>)
      returns (ok: bool, next: nat, ghost nextJ: nat, ghost nextDone: seq<Task>)
      requires Valid() && AllValid(roster) && ev.Valid()
      requires |gone| == |s| && i < |node.tasks| && forall t :: t in node.tasks ==> t in s
      requires Distinct(s) ==> WalkAt(s, gone, node.tasks, i, j, done) && Marked(node, s, gone, j, clock)
      modifies node`tasks, node`power, s, ev, learner, LearnersOf(roster)
      ensures Valid() && AllValid(roster) && ev.Valid()
      ensures next <= |node.tasks| && |node.tasks| - next < old(|node.tasks|) - i
      ensures forall t :: t in node.tasks ==> t in s
      ensures node.power + PowerSum(done) == old(node.power) + PowerSum(nextDone)
      ensures ok && Distinct(s) ==> WalkAt(s, gone, node.tasks, next, nextJ, nextDone) && Marked(node, s, gone, nextJ, clock)
    {
      var task := node.tasks[i];
      assert task in s;
      if Distinct(s) {
        WalkLooksAt(s, gone, node.tasks, i, j, done);
      }
      var finished := node.IsDone(task, clock);
      assert Distinct(s) ==> Marked(node, s, gone, j, clock) && gone[j] == finished;
      if finished {
        ok, next, nextJ := ReleaseFinished(node, roster, graph, clock, ev, i, s, gone, j, done);
        nextDone := done + [task];
        assert nextDone[..|done|] == done;
      } else {
        if Distinct(s) {
          WalkKeeps(s, gone, node.tasks, i, j, done);
        }
        ok, next, nextJ, nextDone := true, i + 1, j + 1, done;
      }
    }

    /** The turn of the walk that finds the task at index `i` complete. */
    method ReleaseFinished(node: Node, roster: seq<Zone>, graph: Mobility.MobilityGraph, clock: Metrics.Clock,
                           ev: Metrics.Evaluator, i: nat, ghost s: seq<Task>, ghost gone: seq<bool>, ghost j: nat,
                           ghost done: seq<Task>)
      returns (ok: bool, next: nat, ghost nextJ: nat)
      requires Valid() && AllValid(roster) && ev.Valid()
      requires |gone| == |s| && i < |node.tasks| && forall t :: t in node.tasks ==> t in s
      requires Distinct(s) ==> WalkAt(s, gone, node.tasks, i, j, done) && Marked(node, s, gone, j, clock)
                               && j < |s| && node.tasks[i] == s[j] && gone[j]
      modifies node`tasks, node`power, s, ev, learner, LearnersOf(roster)
      ensures Valid() && AllValid(roster) && ev.Valid()
      ensures next <= |node.tasks| && |node.tasks| - next < old(|node.tasks|) - i
      ensures forall t :: t in node.tasks ==> t in s
      ensures node.power == old(node.power) + old(node.tasks[i]).powerNeeded
      ensures ok && Distinct(s) ==> WalkAt(s, gone, node.tasks, next, nextJ, done + [old(node.tasks[i])])
      ensures ok && Distinct(s) ==> Marked(node, s, gone, nextJ, clock)
    {
      var task := node.tasks[i];
      assert task in s;
      ghost var rest := if Distinct(s) then s[j + 1..] else [];
      if Distinct(s) {
        WalkRemoves(s, gone, node.tasks, i, j, done);
      }
      RemoveFirstKeeps(node.tasks, task);
      ok := ReleaseOne(node, task, roster, graph, clock, ev, rest);
      assert Distinct(s) ==> forall k :: j + 1 <= k < |s| ==> s[k] in rest;
      // the task that slid into slot `i` is passed over
      next := if i < |node.tasks| then i + 1 else i;
      nextJ := if j + 1 < |s| then j + 2 else j + 1;
    }

    /** The task loop of `update` for one member: every task found complete when the walk
     *  reaches it is removed, which gives its power back, and routed to its owner. The walk's
     *  index keeps advancing after a removal, so the task that slides into the freed slot is
     *  not looked at in this tick. On a list without repeats the tasks left are exactly the
     *  `Survivors` of the walk and the power regained is that of the `Removed` ones. */
    method ReleaseCompleted(node: Node, roster: seq<Zone>, graph: Mobility.MobilityGraph, clock: Metrics.Clock,
                            ev: Metrics.Evaluator) returns (ok: bool, ghost gone: seq<bool>)
      requires Valid() && AllValid(roster) && ev.Valid()
      modifies node`tasks, node`power, node.tasks, ev, learner, LearnersOf(roster)
      ensures Valid() && AllValid(roster) && ev.Valid()
      ensures gone == old(DoneMarks(node, node.tasks, clock))
      ensures Shrunk(node, old(node.tasks))
      ensures ok ==> Released(node, old(node.tasks), old(node.power), gone)
    {
      ghost var s := node.tasks;
      gone := DoneMarks(node, s, clock);
      ghost var j: nat := 0;
      ghost var done: seq<Task> := [];
      WalkStarts(s, gone);
      var i: nat := 0;
      ok := true;
      while i < |node.tasks|
        invariant i <= |node.tasks|
        invariant forall t :: t in node.tasks ==> t in s
        invariant Valid() && AllValid(roster) && ev.Valid()
        invariant node.power == old(node.power) + PowerSum(done)
        invariant Distinct(s) ==> WalkAt(s, gone, node.tasks, i, j, done) && Marked(node, s, gone, j, clock)
        decreases |node.tasks| - i
      {
        ok, i, j, done := ReleaseStep(node, roster, graph, clock, ev, i, s, gone, j, done);
        if !ok {
          return;
        }
      }
      if Distinct(s) {
        WalkEnds(s, gone, node.tasks, i, j, done);
      }
    }

    /** The first loop of `update`: the task walk of every member in turn. Positions do not
     *  change and no node gains a task; a failure ends the loop there. */
    method ReleaseAll(roster: seq<Zone>, graph: Mobility.MobilityGraph, clock: Metrics.Clock, ev: Metrics.Evaluator)
      returns (ok: bool, ghost marks: map<Node, seq<bool>>)
      requires Valid() && AllValid(roster) && ev.Valid()
      modifies fogNodes, TasksOf(fogNodes), ev, learner, LearnersOf(roster)
      ensures Valid() && AllValid(roster) && ev.Valid()
      ensures forall n :: n in fogNodes ==> Mobility.PoseOf(n) == old(Mobility.PoseOf(n)) && Shrunk(n, old(n.tasks))
      ensures ok ==> forall n :: n in fogNodes ==> n in marks && Released(n, old(n.tasks), old(n.power), marks[n])
      ensures ok && old(TasksApart(fogNodes)) ==>
                forall n :: n in fogNodes ==> n in marks && marks[n] == old(DoneMarks(n, n.tasks, clock))
    {
      ghost var tasks0 := map n | n in fogNodes :: n.tasks;
      ghost var power0 := map n | n in fogNodes :: n.power;
      ghost var pos0 := map n | n in fogNodes :: Mobility.PoseOf(n);
      ghost var done0 := map n | n in fogNodes :: DoneMarks(n, n.tasks, clock);
      ghost var apart := TasksApart(fogNodes);
      ghost var all := TasksOf(fogNodes);
      assert Covers(tasks0, all);
      assert apart ==> ListsApart(fogNodes, tasks0);
      marks := map[];
      ok := true;
      for i := 0 to |fogNodes|
        invariant Valid() && AllValid(roster) && ev.Valid()
        invariant Swept(fogNodes, i, tasks0, power0, marks) && Kept(fogNodes, tasks0, pos0)
        invariant apart ==> MarkedAsFound(fogNodes, i, done0, marks)
        invariant apart ==> MarksAhead(fogNodes, i, tasks0, done0, clock)
      {
        ok, marks := SweepStep(roster, graph, clock, ev, i, tasks0, power0, pos0, marks, all, apart, done0);
        if !ok {
          return;
        }
      }
      SweptAll(fogNodes, tasks0, power0, marks, done0, apart);
    }

    /** One turn of the first loop of `update`, keeping the loop's invariants. */
    method SweepStep(roster: seq<Zone>, graph: Mobility.MobilityGraph, clock: Metrics.Clock, ev: Metrics.Evaluator,
                     i: nat, ghost tasks0: map<Node, seq<Task>>, ghost power0: map<Node, real>,
                     ghost pos0: map<Node, Mobility.Pose>, ghost marks: map<Node, seq<bool>>, ghost all: set<Task>,
                     ghost apart: bool, ghost done0: map<Node, seq<bool>>)
      returns (ok: bool, ghost marks': map<Node, seq<bool>>)
      requires Valid() && AllValid(roster) && ev.Valid() && i < |fogNodes|
      requires Swept(fogNodes, i, tasks0, power0, marks) && Kept(fogNodes, tasks0, pos0) && Covers(tasks0, all)
      requires apart ==> ListsApart(fogNodes, tasks0) && MarkedAsFound(fogNodes, i, done0, marks)
      requires apart ==> MarksAhead(fogNodes, i, tasks0, done0, clock)
      modifies fogNodes[i], all, ev, learner, LearnersOf(roster)
      ensures Valid() && AllValid(roster) && ev.Valid()
      ensures Kept(fogNodes, tasks0, pos0)
      ensures ok ==> Swept(fogNodes, i + 1, tasks0, power0, marks')
      ensures apart ==> MarkedAsFound(fogNodes, i + 1, done0, marks')
      ensures apart ==> MarksAhead(fogNodes, i + 1, tasks0, done0, clock)
    {
      var node := fogNodes[i];
      assert node.tasks == tasks0[node];
      ghost var gone: seq<bool>;
      ok, gone := ReleaseNext(roster, graph, clock, ev, i, tasks0, power0, apart);
      marks' := marks[node := gone];
      forall k | 0 <= k < |fogNodes| && k != i ensures unchanged(fogNodes[k]) {
        assert fogNodes[k] != node;
      }
    }

    /** One turn of the first loop of `update`: the task walk of member `i`. */
    method ReleaseNext(roster: seq<Zone>, graph: Mobility.MobilityGraph, clock: Metrics.Clock, ev: Metrics.Evaluator,
                       i: nat, ghost tasks0: map<Node, seq<Task>>, ghost power0: map<Node, real>, ghost apart: bool)
      returns (ok: bool, ghost gone: seq<bool>)
      requires Valid() && AllValid(roster) && ev.Valid() && i < |fogNodes|
      requires fogNodes[i] in tasks0 && fogNodes[i] in power0
      requires fogNodes[i].tasks == tasks0[fogNodes[i]] && fogNodes[i].power == power0[fogNodes[i]]
      requires apart ==> ListsApart(fogNodes, tasks0)
      modifies fogNodes[i], fogNodes[i].tasks, ev, learner, LearnersOf(roster)
      ensures Valid() && AllValid(roster) && ev.Valid()
      ensures Mobility.PoseOf(fogNodes[i]) == old(Mobility.PoseOf(fogNodes[i]))
      ensures Shrunk(fogNodes[i], tasks0[fogNodes[i]])
      ensures ok ==> Released(fogNodes[i], tasks0[fogNodes[i]], power0[fogNodes[i]], gone)
      ensures gone == old(DoneMarks(fogNodes[i], fogNodes[i].tasks, clock))
      ensures forall n :: n in fogNodes && n != fogNodes[i] ==> unchanged(n)
      ensures apart ==> forall k :: 0 <= k < |fogNodes| && k != i && fogNodes[k] in tasks0 ==>
                          DoneMarks(fogNodes[k], tasks0[fogNodes[k]], clock) == old(DoneMarks(fogNodes[k], tasks0[fogNodes[k]], clock))
    {
      var node := fogNodes[i];
      ok, gone := ReleaseCompleted(node, roster, graph, clock, ev);
      if apart {
        forall k, t | 0 <= k < |fogNodes| && k != i && fogNodes[k] in tasks0 && t in tasks0[fogNodes[k]]
          ensures unchanged(t) && t.creator.x == old(t.creator.x) && t.creator.y == old(t.creator.y)
        {
          assert t !in tasks0[node];
        }
        OtherMarksKept(Walk(fogNodes, tasks0, i, clock));
      }
    }

    /** Which nodes of `s` are outside the zone. */
    function Outside(s: seq<Node>): (m: seq<bool>)
      reads s
      ensures |m| == |s| && forall k :: 0 <= k < |s| ==> m[k] == !IsWithinCoverage(s[k].x, s[k].y)
    {
      seq(|s|, k requires 0 <= k < |s| reads s => !IsWithinCoverage(s[k].x, s[k].y))
    }

    /** Every zone of the roster other than this one holds what it held (`orig`) plus the
     *  nodes `moved` it was given. */
    ghost predicate Rejoining(roster: seq<Zone>, orig: map<Zone, seq<Node>>, moved: seq<Node>)
      reads roster, moved
    {
      forall z :: z in roster && z != this ==> z in orig && z.fogNodes == Rejoined(orig[z], roster, moved, z)
    }

    /** The second loop of `update`: every member found outside the zone is removed and
     *  handed to `assign_fog_nodes_to_zones` with the limit. The loop's index advances after
     *  a removal, so the member that slides into the freed slot is passed over and stays. */
    method Rezone(roster: seq<Zone>)
      requires Valid() && AllValid(roster)
      modifies this, roster
      ensures Valid() && AllValid(roster)
      ensures fogNodes == Survivors(old(fogNodes), Outside(old(fogNodes)), 0)
      ensures forall z :: z in roster && z != this ==>
                z.fogNodes == Rejoined(old(z.fogNodes), roster, Removed(old(fogNodes), Outside(old(fogNodes)), 0), z)
    {
      ghost var s := fogNodes;
      ghost var gone := Outside(s);
      ghost var orig := map z | z in roster :: z.fogNodes;
      ghost var j: nat := 0;
      ghost var done: seq<Node> := [];
      WalkStarts(s, gone);
      var i: nat := 0;
      while i < |fogNodes|
        invariant Valid() && AllValid(roster)
        invariant gone == Outside(s)
        invariant WalkAt(s, gone, fogNodes, i, j, done) && Rejoining(roster, orig, done)
        decreases |fogNodes| - i
      {
        i, j, done := RezoneStep(roster, i, s, gone, j, done, orig);
      }
      WalkEnds(s, gone, fogNodes, i, j, done);
    }

    /** One turn of the rezoning walk, at index `i` of the members (see `Lists.WalkAt`). */
    method RezoneStep(roster: seq<Zone>, i: nat, ghost s: seq<Node>, ghost gone: seq<bool>, ghost j: nat,
                      ghost done: seq<Node>, ghost orig: map<Zone, seq<Node>>)
      returns (next: nat, ghost nextJ: nat, ghost nextDone: seq<Node>)
      requires Valid() && AllValid(roster) && Distinct(s)
      requires gone == Outside(s) && i < |fogNodes|
      requires WalkAt(s, gone, fogNodes, i, j, done) && Rejoining(roster, orig, done)
      modifies this, roster
      ensures Valid() && AllValid(roster)
      ensures next <= |fogNodes| && |fogNodes| - next < old(|fogNodes|) - i
      ensures WalkAt(s, gone, fogNodes, next, nextJ, nextDone) && Rejoining(roster, orig, nextDone)
    {
      var n := fogNodes[i];
      if !IsWithinCoverage(n.x, n.y) {
        next, nextJ, nextDone := LetGo(roster, i, s, gone, j, done, orig);
      } else {
        WalkLooksAt(s, gone, fogNodes, i, j, done);
        WalkKeeps(s, gone, fogNodes, i, j, done);
        next, nextJ, nextDone := i + 1, j + 1, done;
      }
    }

    /** The turn of the rezoning walk that finds member `i` outside the zone: it leaves the
     *  members and is handed to the roster. */
    method LetGo(roster: seq<Zone>, i: nat, ghost s: seq<Node>, ghost gone: seq<bool>, ghost j: nat,
                 ghost done: seq<Node>, ghost orig: map<Zone, seq<Node>>)
      returns (next: nat, ghost nextJ: nat, ghost nextDone: seq<Node>)
      requires Valid() && AllValid(roster) && Distinct(s)
      requires gone == Outside(s) && i < |fogNodes| && !IsWithinCoverage(fogNodes[i].x, fogNodes[i].y)
      requires WalkAt(s, gone, fogNodes, i, j, done) && Rejoining(roster, orig, done)
      modifies this, roster
      ensures Valid() && AllValid(roster)
      ensures next <= |fogNodes| && |fogNodes| - next < old(|fogNodes|) - i
      ensures WalkAt(s, gone, fogNodes, next, nextJ, nextDone) && Rejoining(roster, orig, nextDone)
    {
      var n := fogNodes[i];
      WalkLooksAt(s, gone, fogNodes, i, j, done);
      WalkRemoves(s, gone, fogNodes, i, j, done);
      RemoveFirstDistinct(fogNodes, n);
      fogNodes := RemoveFirst(fogNodes, n);
      HandOver(roster, n, orig, done);
      next := if i < |fogNodes| then i + 1 else i;
      nextJ := if j + 1 < |s| then j + 2 else j + 1;
      nextDone := done + [n];
    }

    /** A node that left this zone goes to `assign_fog_nodes_to_zones` with the limit; this
     *  zone, which does not cover it, keeps its members. */
    method HandOver(roster: seq<Zone>, n: Node, ghost orig: map<Zone, seq<Node>>, ghost done: seq<Node>)
      requires AllValid(roster) && Rejoining(roster, orig, done) && !IsWithinCoverage(n.x, n.y)
      modifies roster
      ensures AllValid(roster) && Rejoining(roster, orig, done + [n])
      ensures fogNodes == old(fogNodes)
    {
      AssignFogNodeToZones(roster, n, true);
      assert !Picks(roster, n.x, n.y, true, this);
      assert (done + [n])[..|done|] == done;
    }

    /** `update`, this zone's part of a tick: the task walk of every member (`ReleaseAll`
     *  states what it leaves on each member), then the rezoning walk. A failure in the first
     *  loop ends the tick there. */
    method Update(roster: seq<Zone>, graph: Mobility.MobilityGraph, clock: Metrics.Clock, ev: Metrics.Evaluator)
      returns (ok: bool, ghost marks: map<Node, seq<bool>>)
      requires Valid() && AllValid(roster) && ev.Valid()
      modifies this, roster, fogNodes, TasksOf(fogNodes), ev, learner, LearnersOf(roster)
      ensures Valid() && AllValid(roster) && ev.Valid()
      ensures forall n :: n in old(fogNodes) ==> Mobility.PoseOf(n) == old(Mobility.PoseOf(n)) && Shrunk(n, old(n.tasks))
      ensures ok ==> forall n :: n in old(fogNodes) ==> n in marks && Released(n, old(n.tasks), old(n.power), marks[n])
      ensures ok && old(TasksApart(fogNodes)) ==>
                forall n :: n in old(fogNodes) ==> n in marks && marks[n] == old(DoneMarks(n, n.tasks, clock))
      ensures ok ==> fogNodes == Survivors(old(fogNodes), old(Outside(fogNodes)), 0)
      ensures ok ==> forall z :: z in roster && z != this ==>
                       z.fogNodes == Rejoined(old(z.fogNodes), roster, Removed(old(fogNodes), old(Outside(fogNodes)), 0), z)
      ensures !ok ==> fogNodes == old(fogNodes) && forall z :: z in roster ==> z.fogNodes == old(z.fogNodes)
    {
      ok, marks := ReleaseMembers(roster, graph, clock, ev);
      if ok {
        Rezone(roster);
      }
    }

    /** The first loop of `update` as `update` relies on it: the members and the roster's
     *  memberships stay as they are, members stay inside or outside the zone, and no
     *  member gains a task. */
    method ReleaseMembers(roster: seq<Zone>, graph: Mobility.MobilityGraph, clock: Metrics.Clock, ev: Metrics.Evaluator)
      returns (ok: bool, ghost marks: map<Node, seq<bool>>)
      requires Valid() && AllValid(roster) && ev.Valid()
      modifies fogNodes, TasksOf(fogNodes), ev, learner, LearnersOf(roster)
      ensures Valid() && AllValid(roster) && ev.Valid()
      ensures forall n :: n in fogNodes ==> Mobility.PoseOf(n) == old(Mobility.PoseOf(n)) && Shrunk(n, old(n.tasks))
      ensures ok ==> forall n :: n in fogNodes ==> n in marks && Released(n, old(n.tasks), old(n.power), marks[n])
      ensures ok && old(TasksApart(fogNodes)) ==>
                forall n :: n in fogNodes ==> n in marks && marks[n] == old(DoneMarks(n, n.tasks, clock))
      ensures fogNodes == old(fogNodes) && Outside(fogNodes) == old(Outside(fogNodes))
      ensures forall z :: z in roster ==> z.fogNodes == old(z.fogNodes)
    {
      ghost var gone := Outside(fogNodes);
      ok, marks := ReleaseAll(roster, graph, clock, ev);
      assert forall n :: n in fogNodes ==> n.x == old(n.x) && n.y == old(n.y);
      assert Outside(fogNodes) == gone;
    }

    /** What the rezoning walk does with each member: one inside the zone is never removed,
     *  one removed is outside, and when no two neighbours are both outside every member left
     *  is inside. */
    lemma RezoneKeepsInside(s: seq<Node>)
      ensures forall k :: 0 <= k < |s| && IsWithinCoverage(s[k].x, s[k].y) ==> s[k] in Survivors(s, Outside(s), 0)
      ensures forall n :: n in Removed(s, Outside(s), 0) ==> !IsWithinCoverage(n.x, n.y)
      ensures (forall k :: 0 <= k < |s| - 1 && !IsWithinCoverage(s[k].x, s[k].y) ==> IsWithinCoverage(s[k + 1].x, s[k + 1].y))
              ==> forall n :: n in Survivors(s, Outside(s), 0) ==> IsWithinCoverage(n.x, n.y)
    {
      var gone := Outside(s);
      forall k | 0 <= k < |s| && IsWithinCoverage(s[k].x, s[k].y) ensures s[k] in Survivors(s, gone, 0) {
        UnmarkedSurvive(s, gone, 0, k);
      }
      forall n | n in Removed(s, gone, 0) ensures !IsWithinCoverage(n.x, n.y) {
        RemovedAreMarked(s, gone, 0, n);
      }
      if forall k :: 0 <= k < |s| - 1 && !IsWithinCoverage(s[k].x, s[k].y) ==> IsWithinCoverage(s[k + 1].x, s[k + 1].y) {
        WalkWithoutAdjacentMarks(s, gone, 0);
        forall n | n in Survivors(s, gone, 0) ensures IsWithinCoverage(n.x, n.y) {
          UnmarkedAreUnmarked(s, gone, 0, n);
        }
      }
    }
  }

  /** The table's suggestion is a node of `all` named like one of the candidates. */
  lemma SuggestedIsMember(t: seq<Row>, key: State, possible: seq<Node>, all: seq<Node>)
    requires KeyIndex(t, key).Some? && |possible| > 0
    ensures Learning.Suggested(t, key, Learning.Snapshots(possible), all) != null ==>
              Learning.Suggested(t, key, Learning.Snapshots(possible), all) in all
              && exists i :: 0 <= i < |possible| && possible[i].id == Learning.Suggested(t, key, Learning.Snapshots(possible), all).id
  {
    var cands := Learning.Snapshots(possible);
    BestEntryOnStoredKey(t, key, cands);
    var s := Learning.Suggested(t, key, cands, all);
    if s != null {
      var i :| 0 <= i < |cands| && BestEntry(t, key, cands).value == Some(cands[i]);
      assert s == WithId(all, cands[i].id);
      assert possible[i].id == s.id;
    }
  }

  /** The learner's answer, completed with the cheapest-node fallback, is `LearnedChoice`. */
  lemma LearnedChoiceFollows(t: seq<Row>, d: StateData, p: seq<Node>, cands: seq<ActionData>, all: seq<Node>,
                             roll: real, choice: nat, cost: Node -> real, suggestion: Node?)
    requires |p| > 0
    requires roll < Epsilon ==> suggestion == p[choice % |p|]
    requires roll >= Epsilon && !ExistsState(t, d) ==> suggestion == null
    requires roll >= Epsilon && ExistsState(t, d) ==>
               suggestion == Learning.Suggested(t, Learning.NearestKey(t, d), cands, all)
    ensures (if suggestion == null then Cheapest(p, cost) else suggestion)
            == LearnedChoice(t, d, p, cands, all, roll, choice, cost)
  {
  }

  /** The filtering loop of `get_possible_fog_nodes`. */
  method FilterFeasible(nodes: seq<Node>, task: Task, user: Node) returns (r: seq<Node>)
    ensures r == Possible(nodes, task, user)
  {
    r := [];
    for i := 0 to |nodes|
      invariant r == Possible(nodes[..i], task, user)
    {
      assert nodes[..i + 1][..i] == nodes[..i];
      if Feasible(nodes[i], task, user) {
        r := r + [nodes[i]];
      }
    }
    assert nodes[..|nodes|] == nodes;
  }

  // ---------------------------------------------------------------------------
  // The roster of zones the topology keeps.

  /** The tables of the learning zones of a roster. */
  function LearnersOf(roster: seq<Zone>): set<Learning.Learner>
  {
    set z | z in roster && z.learner != null :: z.learner
  }

  ghost predicate AllValid(roster: seq<Zone>)
    reads roster, LearnersOf(roster)
  {
    forall z :: z in roster ==> z.Valid()
  }

  /** The squared distance from a point to each zone's centre. */
  function CentreCost(px: real, py: real): Zone -> real
  {
    (z: Zone) => DistSq(px, py, z.x, z.y)
  }

  /** `get_nearest_zone`: the first zone whose centre is nearest the point; none for no zones. */
  function NearestOf(roster: seq<Zone>, px: real, py: real): (z: Zone?)
    ensures z == null <==> |roster| == 0
    ensures z != null ==> z in roster
  {
    if |roster| == 0 then null else roster[FirstCheapest(roster, CentreCost(px, py), |roster|)]
  }

  /** No zone of the roster is nearer than the chosen one, and every zone before it is farther. */
  lemma NearestOfIsNearest(roster: seq<Zone>, px: real, py: real)
    requires |roster| > 0
    ensures var z := NearestOf(roster, px, py);
            z != null
            && (forall w :: w in roster ==> DistSq(px, py, z.x, z.y) <= DistSq(px, py, w.x, w.y))
            && exists k :: 0 <= k < |roster| && roster[k] == z
                           && forall j :: 0 <= j < k ==> DistSq(px, py, roster[j].x, roster[j].y) > DistSq(px, py, z.x, z.y)
  {
    var k := FirstCheapest(roster, CentreCost(px, py), |roster|);
    FirstCheapestIsFirstMinimum(roster, CentreCost(px, py), |roster|);
    forall w | w in roster
      ensures DistSq(px, py, roster[k].x, roster[k].y) <= DistSq(px, py, w.x, w.y)
    {
      var j :| 0 <= j < |roster| && roster[j] == w;
      assert CentreCost(px, py)(roster[k]) <= CentreCost(px, py)(roster[j]);
    }
    forall j | 0 <= j < k
      ensures DistSq(px, py, roster[j].x, roster[j].y) > DistSq(px, py, roster[k].x, roster[k].y)
    {
      assert CentreCost(px, py)(roster[k]) < CentreCost(px, py)(roster[j]);
    }
  }

  /** The loop of `get_nearest_zone`. */
  method NearestZone(roster: seq<Zone>, px: real, py: real) returns (nearest: Zone?)
    ensures nearest == NearestOf(roster, px, py)
  {
    nearest := null;
    var best := 0.0;
    for i := 0 to |roster|
      invariant i == 0 <==> nearest == null
      invariant i > 0 ==> nearest == roster[FirstCheapest(roster, CentreCost(px, py), i)]
                          && best == CentreCost(px, py)(nearest)
    {
      var d := DistSq(px, py, roster[i].x, roster[i].y);
      if nearest == null || d < best {
        nearest, best := roster[i], d;
      }
    }
  }

  /** How many of the first `n` zones cover the point. */
  function CoveringCount(roster: seq<Zone>, px: real, py: real, n: nat): (c: nat)
    requires n <= |roster|
    ensures c <= n
  {
    if n == 0 then 0
    else CoveringCount(roster, px, py, n - 1) + (if roster[n - 1].IsWithinCoverage(px, py) then 1 else 0)
  }

  /** The first prefix of the roster holding three covering zones, or the whole roster. */
  function CapReached(roster: seq<Zone>, px: real, py: real, n: nat): (r: nat)
    requires n <= |roster|
    ensures n <= r <= |roster|
    decreases |roster| - n
  {
    if n == |roster| || CoveringCount(roster, px, py, n) >= 3 then n
    else CapReached(roster, px, py, n + 1)
  }

  /** How much of the roster `assign_fog_nodes_to_zones` looks at: all of it, or with the
   *  limit, up to and including the third covering zone. */
  function Reach(roster: seq<Zone>, px: real, py: real, limit: bool): (r: nat)
    ensures r <= |roster|
  {
    if limit then CapReached(roster, px, py, 0) else |roster|
  }

  /** With the limit, the scan stops exactly when three covering zones have been seen, zones
   *  that already hold the node included; it never takes a fourth. */
  lemma {:induction false} ReachCapsAtThree(roster: seq<Zone>, px: real, py: real, n: nat)
    requires n <= |roster| && CoveringCount(roster, px, py, n) <= 3
    ensures var r := CapReached(roster, px, py, n);
            CoveringCount(roster, px, py, r) <= 3
            && (r < |roster| ==> CoveringCount(roster, px, py, r) == 3)
    decreases |roster| - n
  {
    if n < |roster| && CoveringCount(roster, px, py, n) < 3 {
      ReachCapsAtThree(roster, px, py, n + 1);
    }
  }

  /** Whether `assign_fog_nodes_to_zones` adds the node at (px, py) to zone `z`. */
  ghost predicate Picks(roster: seq<Zone>, px: real, py: real, limit: bool, z: Zone)
  {
    z in roster[..Reach(roster, px, py, limit)] && z.IsWithinCoverage(px, py)
  }

  /** `assign_fog_nodes_to_zones`: the node joins every covering zone in roster order; with
   *  the limit the loop stops after the third covering zone. Other zones keep their members. */
  method AssignFogNodeToZones(roster: seq<Zone>, node: Node, limit: bool)
    requires AllValid(roster)
    modifies roster
    ensures AllValid(roster)
    ensures forall z :: z in roster ==>
              z.fogNodes == if Picks(roster, node.x, node.y, limit, z) then Added(old(z.fogNodes), node)
                            else old(z.fogNodes)
  {
    ghost var orig := map z | z in roster :: z.fogNodes;
    var px, py := node.x, node.y;
    ScanRoster(roster, node, px, py, limit, orig);
    JoinedUpToReach(roster, node, px, py, limit, orig);
    assert node.x == px && node.y == py;
    forall z | z in roster
      ensures z.fogNodes == if Picks(roster, px, py, limit, z) then Added(old(z.fogNodes), node) else old(z.fogNodes)
    {
      assert orig[z] == old(z.fogNodes);
    }
  }

  /** The loop of `assign_fog_nodes_to_zones`; it stops at `Reach`. */
  method ScanRoster(roster: seq<Zone>, node: Node, px: real, py: real, limit: bool, ghost orig: map<Zone, seq<Node>>)
    requires AllValid(roster) && JoinedUpTo(roster, node, px, py, 0, orig)
    modifies roster
    ensures AllValid(roster) && JoinedUpTo(roster, node, px, py, Reach(roster, px, py, limit), orig)
  {
    var count: nat := 0;
    var i: nat := 0;
    while i < |roster| && !(limit && count >= 3)
      invariant i <= |roster| && count == CoveringCount(roster, px, py, i)
      invariant limit ==> CapReached(roster, px, py, i) == Reach(roster, px, py, limit)
      invariant AllValid(roster) && JoinedUpTo(roster, node, px, py, i, orig)
      decreases |roster| - i
    {
      count := ScanStep(roster, node, px, py, limit, i, count, orig);
      i := i + 1;
    }
    ScanStopsAtReach(roster, px, py, limit, i);
  }

  /** Once the scan has stopped, the zones that took the node are the ones it `Picks`. */
  lemma JoinedUpToReach(roster: seq<Zone>, node: Node, px: real, py: real, limit: bool, orig: map<Zone, seq<Node>>)
    requires JoinedUpTo(roster, node, px, py, Reach(roster, px, py, limit), orig)
    ensures forall z :: z in roster ==>
              z.fogNodes == if Picks(roster, px, py, limit, z) then Added(orig[z], node) else orig[z]
  {
  }

  /** One turn of the loop of `assign_fog_nodes_to_zones`, with its count of covering zones. */
  method ScanStep(roster: seq<Zone>, node: Node, px: real, py: real, limit: bool, i: nat, count: nat,
                  ghost orig: map<Zone, seq<Node>>) returns (count': nat)
    requires i < |roster| && !(limit && count >= 3)
    requires count == CoveringCount(roster, px, py, i)
    requires limit ==> CapReached(roster, px, py, i) == Reach(roster, px, py, limit)
    requires AllValid(roster) && JoinedUpTo(roster, node, px, py, i, orig)
    modifies roster[i]
    ensures count' == CoveringCount(roster, px, py, i + 1)
    ensures limit ==> CapReached(roster, px, py, i + 1) == Reach(roster, px, py, limit)
    ensures AllValid(roster) && JoinedUpTo(roster, node, px, py, i + 1, orig)
  {
    if limit {
      CapReachedSteps(roster, px, py, i);
    }
    var joined := JoinStep(roster, node, px, py, i, orig);
    count' := if joined then count + 1 else count;
  }

  /** Below three covering zones the scan goes on to the next zone. */
  lemma CapReachedSteps(roster: seq<Zone>, px: real, py: real, i: nat)
    requires i < |roster| && CoveringCount(roster, px, py, i) < 3
    ensures CapReached(roster, px, py, i) == CapReached(roster, px, py, i + 1)
  {
  }

  /** Where the loop of `assign_fog_nodes_to_zones` stops is `Reach`. */
  lemma ScanStopsAtReach(roster: seq<Zone>, px: real, py: real, limit: bool, i: nat)
    requires i <= |roster|
    requires limit ==> CapReached(roster, px, py, i) == Reach(roster, px, py, limit)
    requires i == |roster| || (limit && CoveringCount(roster, px, py, i) >= 3)
    ensures i == Reach(roster, px, py, limit)
  {
  }

  /** The zones among the first `i` of the roster that cover (px, py) hold `node` on top of
   *  their members `orig`; the others hold just `orig`. */
  ghost predicate JoinedUpTo(roster: seq<Zone>, node: Node, px: real, py: real, i: nat, orig: map<Zone, seq<Node>>)
    requires i <= |roster|
    reads roster
  {
    forall z :: z in roster ==>
      z in orig && z.fogNodes == if z in roster[..i] && z.IsWithinCoverage(px, py)
                                 then Added(orig[z], node) else orig[z]
  }

  /** One turn of `assign_fog_nodes_to_zones`: zone `i` takes the node at (px, py) when it
   *  covers that point. */
  method JoinStep(roster: seq<Zone>, node: Node, px: real, py: real, i: nat, ghost orig: map<Zone, seq<Node>>)
    returns (joined: bool)
    requires i < |roster| && AllValid(roster) && JoinedUpTo(roster, node, px, py, i, orig)
    modifies roster[i]
    ensures joined == roster[i].IsWithinCoverage(px, py)
    ensures AllValid(roster) && JoinedUpTo(roster, node, px, py, i + 1, orig)
  {
    var zone := roster[i];
    assert roster[..i + 1] == roster[..i] + [zone];
    joined := zone.IsWithinCoverage(px, py);
    if joined {
      zone.AddFogNode(node);
      AddedIdempotent(orig[zone], node);
    }
  }

  // ---------------------------------------------------------------------------
  // The sweep of `update`.

  /** The node holds no task it did not hold in `before`. */
  ghost predicate Shrunk(node: Node, before: seq<Task>)
    reads node
  {
    forall t :: t in node.tasks ==> t in before
  }

  /** The node went through the task walk of `update` starting from `before` and `power`,
   *  `gone` marking the tasks it found complete: on a list without repeats, what is left
   *  is what the walk keeps and the power regained is that of the tasks it removed. */
  ghost predicate Released(node: Node, before: seq<Task>, power: real, gone: seq<bool>)
    reads node
  {
    |gone| == |before|
    && (Distinct(before) ==>
          node.tasks == Survivors(before, gone, 0) && node.power == power + PowerSum(Removed(before, gone, 0)))
  }

  /** The first loop of `update` has walked the tasks of `nodes[..i]`, whose marks are in
   *  `marks`, and not yet touched the others, which still hold what they held at its start. */
  ghost predicate Swept(nodes: seq<Node>, i: nat, tasks0: map<Node, seq<Task>>, power0: map<Node, real>,
                        marks: map<Node, seq<bool>>)
    reads nodes
  {
    && i <= |nodes|
    && (forall n :: n in nodes ==> n in tasks0 && n in power0)
    && (forall k :: i <= k < |nodes| ==> nodes[k].tasks == tasks0[nodes[k]] && nodes[k].power == power0[nodes[k]])
    && (forall k :: 0 <= k < i ==> nodes[k] in marks && Released(nodes[k], tasks0[nodes[k]], power0[nodes[k]], marks[nodes[k]]))
  }

  /** No task sits on two of the nodes. */
  ghost predicate TasksApart(nodes: seq<Node>)
    reads nodes
  {
    forall j, k, t :: 0 <= j < |nodes| && 0 <= k < |nodes| && j != k && t in nodes[j].tasks ==> t !in nodes[k].tasks
  }

  /** No task sits on two of the lists `lists` gives the nodes. */
  ghost predicate ListsApart(nodes: seq<Node>, lists: map<Node, seq<Task>>)
  {
    forall j, k, t ::
      0 <= j < |nodes| && 0 <= k < |nodes| && j != k && nodes[j] in lists && nodes[k] in lists && t in lists[nodes[j]]
      ==> t !in lists[nodes[k]]
  }

  /** A walk over `nodes`, at `nodes[i]`, with the task lists `lists` of the nodes and the clock. */
  datatype Walk = Walk(nodes: seq<Node>, lists: map<Node, seq<Task>>, i: nat, clock: Metrics.Clock)

  /** Walking one node leaves which tasks of the other nodes are complete as it was, when
   *  those nodes, their tasks and the positions of the tasks' creators are as they were. */
  twostate lemma OtherMarksKept(w: Walk)
    requires w.i < |w.nodes| && unchanged(w.clock)
    requires forall k :: 0 <= k < |w.nodes| && k != w.i ==> w.nodes[k] != w.nodes[w.i]
    requires forall n :: n in w.nodes && n != w.nodes[w.i] ==> unchanged(n)
    requires forall k, t :: 0 <= k < |w.nodes| && k != w.i && w.nodes[k] in w.lists && t in w.lists[w.nodes[k]] ==>
               unchanged(t) && t.creator.x == old(t.creator.x) && t.creator.y == old(t.creator.y)
    ensures forall k :: 0 <= k < |w.nodes| && k != w.i && w.nodes[k] in w.lists ==>
              DoneMarks(w.nodes[k], w.lists[w.nodes[k]], w.clock) == old(DoneMarks(w.nodes[k], w.lists[w.nodes[k]], w.clock))
  {
    forall k | 0 <= k < |w.nodes| && k != w.i && w.nodes[k] in w.lists
      ensures DoneMarks(w.nodes[k], w.lists[w.nodes[k]], w.clock) == old(DoneMarks(w.nodes[k], w.lists[w.nodes[k]], w.clock))
    {
      var n, s := w.nodes[k], w.lists[w.nodes[k]];
      assert n in w.nodes;
      forall j | 0 <= j < |s| ensures Completed(n, s[j], w.clock) == old(Completed(n, s[j], w.clock)) {
        assert s[j] in s;
      }
    }
  }

  /** The nodes walked so far carry the marks `done0` gave them before the walk began. */
  ghost predicate MarkedAsFound(nodes: seq<Node>, i: nat, done0: map<Node, seq<bool>>, marks: map<Node, seq<bool>>)
  {
    forall k :: 0 <= k < i && k < |nodes| ==> nodes[k] in marks && nodes[k] in done0 && marks[nodes[k]] == done0[nodes[k]]
  }

  /** The nodes from `i` on still have the completion marks `done0` of their lists `tasks0`. */
  ghost predicate MarksAhead(nodes: seq<Node>, i: nat, tasks0: map<Node, seq<Task>>, done0: map<Node, seq<bool>>,
                             clock: Metrics.Clock)
    reads *
  {
    forall k :: i <= k < |nodes| ==>
      nodes[k] in tasks0 && nodes[k] in done0 && DoneMarks(nodes[k], tasks0[nodes[k]], clock) == done0[nodes[k]]
  }

  /** Once the walk has passed every node, each one went through it, with the marks found. */
  lemma SweptAll(nodes: seq<Node>, tasks0: map<Node, seq<Task>>, power0: map<Node, real>,
                 marks: map<Node, seq<bool>>, done0: map<Node, seq<bool>>, apart: bool)
    requires Swept(nodes, |nodes|, tasks0, power0, marks)
    requires apart ==> MarkedAsFound(nodes, |nodes|, done0, marks)
    ensures forall n :: n in nodes ==> n in marks && n in tasks0 && n in power0 && Released(n, tasks0[n], power0[n], marks[n])
    ensures apart ==> forall n :: n in nodes ==> n in marks && n in done0 && marks[n] == done0[n]
  {
    forall n | n in nodes
      ensures n in marks && n in tasks0 && n in power0 && Released(n, tasks0[n], power0[n], marks[n])
      ensures apart ==> n in done0 && marks[n] == done0[n]
    {
      var k :| 0 <= k < |nodes| && nodes[k] == n;
    }
  }

  /** Every node is where it was and holds no task it did not hold. */
  ghost predicate Kept(nodes: seq<Node>, tasks0: map<Node, seq<Task>>, pos0: map<Node, Mobility.Pose>)
    reads nodes
  {
    forall n :: n in nodes ==> n in tasks0 && n in pos0 && Mobility.PoseOf(n) == pos0[n] && Shrunk(n, tasks0[n])
  }

  /** Every task list of `lists` is drawn from `all`. */
  ghost predicate Covers(lists: map<Node, seq<Task>>, all: set<Task>)
  {
    forall n, t :: n in lists && t in lists[n] ==> t in all
  }

  /** The tasks the nodes hold. */
  function TasksOf(nodes: seq<Node>): set<Task>
    reads nodes
  {
    set n, t | n in nodes && t in n.tasks :: t
  }

  /** The members of zone `z` after the nodes `moved` were handed, in order, to
   *  `assign_fog_nodes_to_zones` with the limit. */
  ghost function Rejoined(members: seq<Node>, roster: seq<Zone>, moved: seq<Node>, z: Zone): seq<Node>
    reads moved
    decreases |moved|
  {
    if |moved| == 0 then members
    else
      var n := moved[|moved| - 1];
      var acc := Rejoined(members, roster, moved[..|moved| - 1], z);
      if Picks(roster, n.x, n.y, true, z) then Added(acc, n) else acc
  }

  /** Handing nodes over adds only those nodes to a zone. */
  lemma {:induction false} RejoinedDrawsFrom(members: seq<Node>, roster: seq<Zone>, moved: seq<Node>, z: Zone)
    ensures forall n :: n in Rejoined(members, roster, moved, z) ==> n in members || n in moved
    decreases |moved|
  {
    if |moved| > 0 {
      RejoinedDrawsFrom(members, roster, moved[..|moved| - 1], z);
    }
  }

  /** Which of the tasks `s` on `node` are complete at the clock's time. */
  ghost function DoneMarks(node: Node, s: seq<Task>, clock: Metrics.Clock): (m: seq<bool>)
    reads node`x, node`y, s`creationTime, s`isMigrated, (set t | t in s :: t.creator)`x,
          (set t | t in s :: t.creator)`y, clock`time
    ensures |m| == |s| && forall k :: 0 <= k < |s| ==> m[k] == Completed(node, s[k], clock)
    decreases |s|
  {
    if |s| == 0 then []
    else DoneMarks(node, s[..|s| - 1], clock) + [Completed(node, s[|s| - 1], clock)]
  }

  /** The marks of `s[j..]` still say which of those tasks are complete. */
  ghost predicate Marked(node: Node, s: seq<Task>, gone: seq<bool>, j: nat, clock: Metrics.Clock)
    requires |gone| == |s|
    reads node, s, set t | t in s :: t.creator, clock
  {
    forall k :: j <= k < |s| ==> Completed(node, s[k], clock) == gone[k]
  }

  /** The power the tasks hold. */
  function PowerSum(ts: seq<Task>): real
  {
    if |ts| == 0 then 0.0 else PowerSum(ts[..|ts| - 1]) + ts[|ts| - 1].powerNeeded
  }
}
