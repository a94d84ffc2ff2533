/** The topology (Code/Topology.py): the layers of nodes, the zone roster and the queue of
 *  tasks waiting for a place. A task is offered to the zones around its creator and goes to
 *  the nearest offered fog node that still accepts it; failing that, it goes to the cloud
 *  or waits in the queue.
 *
 *  Distances are compared squared: "nearer than half the cloud's distance" becomes "squared
 *  distance below a quarter of the cloud's squared distance" (`ThresholdExact`). */
module Orchestration {
  import opened Wrappers
  import opened Lists
  import opened Entities
  import opened Zones
  import opened Broadcasting
  import Config
  import LearnerKeys
  import Metrics
  import Mobility

  // ---------------------------------------------------------------------------
  // Target zones.

  /** The zones of `a` that also appear in `b`, in the order of `a`. */
  function Common(a: seq<Zone>, b: seq<Zone>): (r: seq<Zone>)
    ensures |r| <= |a|
    ensures forall z :: z in r ==> z in a && z in b
    decreases |a|
  {
    if |a| == 0 then []
    else Common(a[..|a| - 1], b) + (if a[|a| - 1] in b then [a[|a| - 1]] else [])
  }

  /** No zone of both lists is left out. */
  lemma {:induction false} CommonComplete(a: seq<Zone>, b: seq<Zone>, z: Zone)
    requires z in a && z in b
    ensures z in Common(a, b)
    decreases |a|
  {
    if z != a[|a| - 1] {
      var k :| 0 <= k < |a| && a[k] == z;
      assert a[..|a| - 1][k] == z;
      CommonComplete(a[..|a| - 1], b, z);
    }
  }

  /** What `get_target_zones` returns, from the zones covering the user's current position
   *  and those covering its predicted one: in fully-random mode the current zones; otherwise
   *  the zones covering both, or the current zones when none does. */
  function Targets(current: seq<Zone>, predicted: seq<Zone>, fullyRandom: bool): seq<Zone>
  {
    if fullyRandom then current
    else
      var ideal := Common(current, predicted);
      if |ideal| > 0 then ideal else current
  }

  /** Every target covers the user; and outside fully-random mode, when some zone covers both
   *  positions, every target covers both. */
  lemma TargetsCover(zones: seq<Zone>, ux: real, uy: real, px: real, py: real, fullyRandom: bool)
    ensures var t := Targets(Covering(zones, ux, uy), Covering(zones, px, py), fullyRandom);
            forall z :: z in t ==> z in zones && z.IsWithinCoverage(ux, uy)
    ensures var t := Targets(Covering(zones, ux, uy), Covering(zones, px, py), fullyRandom);
            !fullyRandom && (exists z :: z in zones && z.IsWithinCoverage(ux, uy) && z.IsWithinCoverage(px, py))
            ==> forall z :: z in t ==> z.IsWithinCoverage(px, py)
  {
    var current, predicted := Covering(zones, ux, uy), Covering(zones, px, py);
    if !fullyRandom && exists z :: z in zones && z.IsWithinCoverage(ux, uy) && z.IsWithinCoverage(px, py) {
      var z :| z in zones && z.IsWithinCoverage(ux, uy) && z.IsWithinCoverage(px, py);
      CommonComplete(current, predicted, z);
    }
  }

  // ---------------------------------------------------------------------------
  // Offers.

  /** Squared distance from an offered node to the user. */
  function Dsq(o: Offer, user: Node): real
    reads o.node`x, o.node`y, user`x, user`y
  {
    o.node.DistSqTo(user.x, user.y)
  }

  /** The offer threshold, `distance < 0.5 * cloud_distance`, on squared distances. */
  predicate NearEnough(dsq: real, cloudDsq: real)
  {
    dsq < 0.25 * cloudDsq
  }

  /** The squared threshold decides like the source's test on the distances themselves. */
  lemma ThresholdExact(d: real, c: real, dsq: real, cloudDsq: real)
    requires d >= 0.0 && c >= 0.0 && d * d == dsq && c * c == cloudDsq
    ensures NearEnough(dsq, cloudDsq) <==> d < 0.5 * c
  {
    var h := 0.5 * c;
    assert h * h == 0.25 * cloudDsq;
    LearnerKeys.SqrtAtMost(h, h * h, d);
  }

  /** The zone an offer names, found by name as `get_zone` does, takes the offer. */
  ghost predicate Acceptable(o: Offer, zones: seq<Zone>, task: Task, user: Node)
    reads zones, MembersOf(zones), user
  {
    var z := Named(zones, o.zoneName);
    z != null && (assert forall n :: n in z.fogNodes ==> n in MembersOf(zones); o.node in z.PossibleNodes(task, user))
  }

  /** The zone an offer names exists and refuses the offer. */
  ghost predicate Refused(o: Offer, zones: seq<Zone>, task: Task, user: Node)
    reads zones, MembersOf(zones), user
  {
    Named(zones, o.zoneName) != null && !Acceptable(o, zones, task, user)
  }

  /** How the offer loop of `assign_task` ends: an offer accepted; the offers used up; the
   *  nearest remaining offer too far; or the source raising (no zone by the offer's name, or
   *  an A3C zone's accept). */
  datatype Run = Accepted(zone: Zone, offer: Offer) | Exhausted | Beyond(offer: Offer) | Raised

  /** How one round of the offer loop ends. */
  datatype Verdict = Took(zone: Zone) | Declined | TooFar | Raising

  /** Where `assign_task` puts a task: on a fog node; on the cloud; at the tail of the queue;
   *  nowhere, the nearest offer being too far (the task is dropped); or the source raising. */
  datatype Placement = OnFog(node: Node) | OnCloud | Queued | Dropped(offer: Offer) | Failed

  /** The random draws of one `assign_task`: the cosine and sine of the user's heading, each
   *  target zone's draws for its offer, the route-cost oracle, and the pick among the fog
   *  layer in fully-random mode. */
  datatype Draw = Draw(cosAngle: real, sinAngle: real, roll: nat -> real, choice: nat -> nat,
                       cost: Node -> real, pick: nat)

  /** How many of the oldest tasks `process_task_queue` evicts from a queue of `length`. */
  function Overflow(length: nat): (n: nat)
    ensures n <= length
    ensures length <= Config.TaskQueueSize <==> n == 0
    ensures length > Config.TaskQueueSize ==> length - n == Config.TaskQueueSize
  {
    if length > Config.TaskQueueSize then length - Config.TaskQueueSize else 0
  }

  /** The tasks that went back to the queue, in the order they were tried. */
  function Requeued(tried: seq<Task>, outcomes: seq<Placement>): (r: seq<Task>)
    requires |tried| == |outcomes|
    ensures |r| <= |tried|
    decreases |tried|
  {
    if |tried| == 0 then []
    else
      Requeued(tried[..|tried| - 1], outcomes[..|tried| - 1])
      + (if outcomes[|tried| - 1].Queued? then [tried[|tried| - 1]] else [])
  }

  /** One retry keeps the queue discipline: with `queue` the rest of the tried tasks' sequence,
   *  popping its head and re-queuing it or not leaves the tried tasks followed by the queue
   *  equal to the old queue followed by the re-queued tasks. */
  lemma FifoStep(rest: seq<Task>, tried: seq<Task>, outcomes: seq<Placement>, queue: seq<Task>, placed: Placement)
    requires |tried| == |outcomes| && |queue| > 0
    requires var whole := rest + Requeued(tried, outcomes);
             |tried| <= |whole| && tried == whole[..|tried|] && queue == whole[|tried|..]
    ensures var whole := rest + Requeued(tried + [queue[0]], outcomes + [placed]);
            |tried| + 1 <= |whole| && tried + [queue[0]] == whole[..|tried| + 1]
            && queue[1..] + (if placed.Queued? then [queue[0]] else []) == whole[|tried| + 1..]
  {
    var i := |tried|;
    assert (tried + [queue[0]])[..i] == tried && (outcomes + [placed])[..i] == outcomes;
    assert Requeued(tried + [queue[0]], outcomes + [placed])
        == Requeued(tried, outcomes) + (if placed.Queued? then [queue[0]] else []);
  }

  /** A queue no longer than `TASK_QUEUE_SIZE` loses nothing, and a complete pass retries each
   *  of its tasks once, oldest first. */
  lemma RetriedOnce(queue0: seq<Task>, evicted: seq<Task>, tried: seq<Task>, outcomes: seq<Placement>)
    requires |queue0| <= Config.TaskQueueSize && |evicted| == Overflow(|queue0|)
    requires |tried| == |outcomes| == |queue0|
    requires tried == (queue0[|evicted|..] + Requeued(tried, outcomes))[..|tried|]
    ensures evicted == [] && tried == queue0
  {
    assert queue0[|evicted|..] == queue0;
  }

  /** The cloud's admission test, as written: enough power, the user in range, and
   *  `not_enough_time(..., is_cloud=True)` holding, without negation. */
  predicate CloudAdmits(cloud: Node, task: Task, user: Node)
    reads cloud, user
  {
    && cloud.power >= task.powerNeeded
    && cloud.InRange(user.x, user.y)
    && NotEnoughTime(cloud.DistSqTo(user.x, user.y), task.execTime, task.deadlineDuration, true, false)
  }

  /** The scan of `assign_task`'s offer loop: the first offer whose node is nearest. */
  method NearestOffer(offers: seq<Offer>, user: Node) returns (k: nat)
    requires |offers| > 0
    ensures k < |offers|
    ensures forall j :: 0 <= j < |offers| ==> Dsq(offers[k], user) <= Dsq(offers[j], user)
    ensures forall j :: 0 <= j < k ==> Dsq(offers[j], user) > Dsq(offers[k], user)
  {
    k := 0;
    var best := Dsq(offers[0], user);
    for i := 1 to |offers|
      invariant k < i
      invariant best == Dsq(offers[k], user)
      invariant forall j :: 0 <= j < i ==> best <= Dsq(offers[j], user)
      invariant forall j :: 0 <= j < k ==> Dsq(offers[j], user) > best
    {
      var d := Dsq(offers[i], user);
      if d < best {
        k, best := i, d;
      }
    }
  }

  /** The bookkeeping of a refused offer: the offer moves from the remaining offers to the
   *  tried ones, every offer is still in one of the two, and no tried offer is farther than a
   *  remaining one. */
  lemma Passed(offers0: seq<Offer>, offers: seq<Offer>, tried: seq<Offer>, best: Offer, d: map<Offer, real>)
    requires best in offers && forall o :: o in offers ==> o in offers0 && o in d
    requires forall o :: o in offers0 ==> o in offers || o in tried
    requires forall o :: o in offers ==> d[best] <= d[o]
    requires forall t, o :: t in tried && o in offers ==> t in d && d[t] <= d[o]
    ensures forall o :: o in RemoveFirst(offers, best) ==> o in offers
    ensures forall o :: o in offers0 ==> o in RemoveFirst(offers, best) || o in tried + [best]
    ensures forall t, o :: t in tried + [best] && o in RemoveFirst(offers, best) ==> d[t] <= d[o]
  {
    RemoveFirstKeeps(offers, best);
    forall o | o in offers && o != best ensures o in RemoveFirst(offers, best) {
      RemoveFirstOthers(offers, best, o);
    }
  }

  /** The nodes of the offers. */
  function OfferedNodes(offers: seq<Offer>): set<Node>
  {
    set o | o in offers :: o.node
  }

  /** After one zone's `update`, every zone holds only nodes some zone held before. */
  lemma RosterDrawsFrom(zones: seq<Zone>, zone: Zone, before: map<Zone, seq<Node>>, after: map<Zone, seq<Node>>,
                        out: seq<bool>, ok: bool, members: set<Node>)
    requires zone in zones
    requires forall z :: z in zones ==> z in before && z in after && forall n :: n in before[z] ==> n in members
    requires |out| == |before[zone]|
    requires ok ==> after[zone] == Survivors(before[zone], out, 0)
    requires ok ==> forall z :: z in zones && z != zone ==> after[z] == Rejoined(before[z], zones, Removed(before[zone], out, 0), z)
    requires !ok ==> forall z :: z in zones ==> after[z] == before[z]
    ensures forall z, n :: z in zones && n in after[z] ==> n in members
  {
    WalkDrawsFrom(before[zone], out);
    forall z | z in zones && z != zone && ok {
      RejoinedDrawsFrom(before[z], zones, Removed(before[zone], out, 0), z);
    }
  }

  /** The tasks the nodes hold. */
  function HeldBy(nodes: set<Node>): set<Task>
    reads nodes
  {
    set n, t | n in nodes && t in n.tasks :: t
  }

  class Topology {
    var zones: seq<Zone>
    const broadcaster: ZoneBroadcaster
    /** `task_queue`, oldest first. */
    var taskQueue: seq<Task>
    const graph: Mobility.MobilityGraph
    /** The nodes of the fog and cloud layers. */
    const fogLayer: seq<Node>
    const cloudLayer: seq<Node>
    /** `Config.RUNNING_MODE`. */
    const mode: Config.RunningMode

    /** The broadcaster holds the same roster, and every zone is well-formed. */
    ghost predicate Valid()
      reads this`zones, broadcaster, zones, LearnersOf(zones)
    {
      broadcaster.zones == zones && AllValid(zones)
    }

    constructor (fogLayer: seq<Node>, cloudLayer: seq<Node>, graph: Mobility.MobilityGraph, mode: Config.RunningMode)
      ensures Valid() && fresh(broadcaster)
      ensures zones == [] && taskQueue == []
      ensures this.fogLayer == fogLayer && this.cloudLayer == cloudLayer && this.graph == graph && this.mode == mode
    {
      this.fogLayer, this.cloudLayer, this.graph, this.mode := fogLayer, cloudLayer, graph, mode;
      zones := [];
      broadcaster := new ZoneBroadcaster();
      taskQueue := [];
    }

    /** `set_zones`: the topology and its broadcaster get the same roster. */
    method SetZones(zs: seq<Zone>)
      requires AllValid(zs)
      modifies this, broadcaster
      ensures Valid() && zones == zs && taskQueue == old(taskQueue)
    {
      broadcaster.SetZones(zs);
      zones := zs;
    }

    /** `get_node`: the graph's first node with the id. */
    method GetNode(id: string) returns (node: Node?)
      ensures node == WithId(graph.nodes, id)
    {
      node := graph.GetNode(id);
    }

    /** `get_target_zones`, with the predicted position `(px, py)` of the user given. */
    method GetTargetZones(user: Node, px: real, py: real) returns (targets: seq<Zone>)
      ensures targets == Targets(Covering(broadcaster.zones, user.x, user.y), Covering(broadcaster.zones, px, py),
                                 mode.FullyRandomMode?)
    {
      var current := broadcaster.GetZonesByPosition(user.x, user.y);
      if mode.FullyRandomMode? {
        return current;
      }
      var predicted := broadcaster.GetZonesByPosition(px, py);
      targets := Common(current, predicted);
      if |targets| == 0 {
        targets := current;
      }
    }

    /** The offer loop of `assign_task`: the nearest remaining offer is tried while it is
     *  nearer than half the cloud's distance, and a refused offer is removed. A refused
     *  `accept_offer` changes nothing, so the loop only decides; the accepting zone's
     *  `accept_offer` then runs on the offer taken (`AssignTask`). */
    method OfferLoop(offers0: seq<Offer>, user: Node, task: Task, cloudDsq: real) returns (run: Run)
      ensures run.Accepted? ==>
                run.offer in offers0 && run.zone == Named(zones, run.offer.zoneName)
                && NearEnough(Dsq(run.offer, user), cloudDsq) && old(Acceptable(run.offer, zones, task, user))
      ensures run.Beyond? ==> run.offer in offers0 && !NearEnough(Dsq(run.offer, user), cloudDsq)
      ensures run.Accepted? || run.Beyond? ==>
                forall p :: p in offers0 && Dsq(p, user) < Dsq(run.offer, user) ==> old(Refused(p, zones, task, user))
      ensures run.Exhausted? ==> forall p :: p in offers0 ==> old(Refused(p, zones, task, user))
    {
      var offers := offers0;
      ghost var tried: seq<Offer> := [];
      ghost var d := map o | o in offers0 :: Dsq(o, user);
      while |offers| > 0
        invariant forall o :: o in offers ==> o in offers0
        invariant forall o :: o in offers0 ==> o in offers || o in tried
        invariant forall o :: o in tried ==> o in offers0 && old(Refused(o, zones, task, user))
        invariant forall t, o :: t in tried && o in offers ==> d[t] <= d[o]
        decreases |offers|
      {
        var k := NearestOffer(offers, user);
        var best := offers[k];
        ghost var named := Named(zones, best.zoneName);
        if named != null {
          assert named.PossibleNodes(task, user) == old(named.PossibleNodes(task, user));
        }
        match Consider(best, user, task, cloudDsq)
        case TooFar => return Beyond(best);
        case Raising => return Raised;
        case Took(zone) => return Accepted(zone, best);
        case Declined =>
          Passed(offers0, offers, tried, best, d);
          tried := tried + [best];
          offers := RemoveFirst(offers, best);
      }
      return Exhausted;
    }

    /** One round of the offer loop on the nearest offer: too far; no zone by its name (the
     *  source then calls `accept_offer` on `None` and raises); the zone it names takes it, the
     *  node being among the zone's possible nodes; or that zone declines it. */
    function Consider(best: Offer, user: Node, task: Task, cloudDsq: real): (v: Verdict)
      reads this, zones, MembersOf(zones), user, best.node
      ensures v.TooFar? <==> !NearEnough(Dsq(best, user), cloudDsq)
      ensures v.Raising? <==> NearEnough(Dsq(best, user), cloudDsq) && Named(zones, best.zoneName) == null
      ensures v.Declined? ==> Refused(best, zones, task, user)
      ensures v.Took? ==> v.zone == Named(zones, best.zoneName) && Acceptable(best, zones, task, user)
    {
      var zone := Named(zones, best.zoneName);
      if !NearEnough(Dsq(best, user), cloudDsq) then TooFar
      else if zone == null then Raising
      else
        assert forall n :: n in zone.fogNodes ==> n in MembersOf(zones);
        if best.node in zone.PossibleNodes(task, user) then Took(zone) else Declined
    }

    /** The cloud fallback of `assign_task` and `assign_task_random`: the first cloud node
     *  takes the task when it admits it, counting a cloud task; otherwise the task joins the
     *  tail of the queue and nothing else changes. */
    method CloudFallback(cloud: Node, user: Node, task: Task, ev: Metrics.Evaluator) returns (placed: Placement)
      requires ev.Valid()
      modifies this`taskQueue, cloud`tasks, cloud`power, task`assignedNode, task`assignedAction, ev
      ensures ev.Valid()
      ensures placed == if old(CloudAdmits(cloud, task, user)) then OnCloud else Queued
      ensures placed.OnCloud? ==>
                cloud.tasks == old(cloud.tasks) + [task]
                && cloud.power == old(cloud.power) - task.powerNeeded >= 0.0
                && task.assignedNode == cloud
                && taskQueue == old(taskQueue)
                && ev.cloudTasks == old(ev.cloudTasks) + 1
      ensures placed.Queued? ==>
                taskQueue == old(taskQueue) + [task] && unchanged(cloud) && unchanged(task)
                && ev.Snapshot() == old(ev.Snapshot()) && ev.countedIds == old(ev.countedIds)
      ensures ev.deadlineMisses == old(ev.deadlineMisses)
    {
      if cloud.power >= task.powerNeeded && cloud.InRange(user.x, user.y)
         && NotEnoughTime(cloud.DistSqTo(user.x, user.y), task.execTime, task.deadlineDuration, true, false) {
        cloud.AppendTask(task, ev);
        ev.CountCloudTask();
        return OnCloud;
      }
      taskQueue := taskQueue + [task];
      return Queued;
    }

    /** `assign_task_random`: with no fog node, the cloud fallback (raising when there is no
     *  cloud node either); otherwise the drawn fog node takes the task exactly when it is
     *  feasible for it, and the task is queued when not. */
    method AssignTaskRandom(user: Node, task: Task, pick: nat, ev: Metrics.Evaluator) returns (placed: Placement)
      requires ev.Valid()
      modifies this`taskQueue, fogLayer, cloudLayer, task`assignedNode, task`assignedAction, ev
      ensures ev.Valid()
      ensures placed.Failed? <==> |fogLayer| == 0 && |cloudLayer| == 0
      ensures placed.OnCloud? <==> |fogLayer| == 0 && |cloudLayer| > 0 && old(CloudAdmits(cloudLayer[0], task, user))
      ensures placed.OnCloud? ==>
                cloudLayer[0].tasks == old(cloudLayer[0].tasks) + [task]
                && cloudLayer[0].power == old(cloudLayer[0].power) - task.powerNeeded >= 0.0
                && task.assignedNode == cloudLayer[0]
      ensures placed.OnFog? <==> |fogLayer| > 0 && old(Feasible(RandomPick(fogLayer, pick), task, user))
      ensures placed.OnFog? ==>
                placed.node == RandomPick(fogLayer, pick)
                && placed.node.tasks == old(placed.node.tasks) + [task]
                && placed.node.power == old(placed.node.power) - task.powerNeeded >= 0.0
                && task.assignedNode == placed.node
      ensures placed.Queued? ==> taskQueue == old(taskQueue) + [task]
      ensures !placed.Queued? ==> taskQueue == old(taskQueue)
      ensures placed.Queued? || placed.Failed? ==> unchanged(task) && ev.Snapshot() == old(ev.Snapshot())
      ensures ev.deadlineMisses == old(ev.deadlineMisses)
      ensures !placed.Dropped?
    {
      if |fogLayer| == 0 {
        if |cloudLayer| == 0 {
          return Failed;
        }
        placed := CloudFallback(cloudLayer[0], user, task, ev);
        return;
      }
      var node := RandomPick(fogLayer, pick);
      if node.power >= task.powerNeeded && node.InRange(user.x, user.y)
         && !NotEnoughTime(node.DistSqTo(user.x, user.y), task.execTime, task.deadlineDuration, false, false) {
        node.AppendTask(task, ev);
        return OnFog(node);
      }
      taskQueue := taskQueue + [task];
      return Queued;
    }

    /** `process_task_queue`: a queue longer than `TASK_QUEUE_SIZE` first loses its oldest
     *  tasks, one deadline miss each; then as many tasks as the queue held at the start are
     *  popped from its head, stamped with the clock and assigned again (draw `k` for the
     *  `k`-th). The source raises when the queue runs dry or an assignment raises. The tasks
     *  tried, followed by the queue left, are the surviving old queue followed by the tasks
     *  that were queued again. */
    method ProcessTaskQueue(clock: Metrics.Clock, draws: nat -> Draw, ev: Metrics.Evaluator)
      returns (ok: bool, ghost evicted: seq<Task>, ghost tried: seq<Task>, ghost outcomes: seq<Placement>)
      requires Valid() && ev.Valid()
      modifies this`taskQueue, LearnersOf(zones), MembersOf(zones), fogLayer, cloudLayer, taskQueue, ev
      ensures Valid() && ev.Valid()
      ensures |evicted| == Overflow(|old(taskQueue)|) && evicted == old(taskQueue)[..|evicted|]
      ensures ev.deadlineMisses == old(ev.deadlineMisses) + |evicted|
      ensures |tried| == |outcomes| <= |old(taskQueue)|
      ensures var whole := old(taskQueue)[|evicted|..] + Requeued(tried, outcomes);
              |tried| <= |whole| && tried == whole[..|tried|] && taskQueue == whole[|tried|..]
      ensures ok ==> |tried| == |old(taskQueue)| && forall k :: 0 <= k < |outcomes| ==> !outcomes[k].Failed?
      ensures !ok ==> (|outcomes| > 0 && outcomes[|outcomes| - 1].Failed?) || taskQueue == []
    {
      var length := |taskQueue|;
      evicted := EvictOverflow(ev);
      tried, outcomes := [], [];
      ghost var rest := taskQueue;
      for i := 0 to length
        invariant Valid() && ev.Valid()
        invariant ev.deadlineMisses == old(ev.deadlineMisses) + |evicted|
        invariant |tried| == |outcomes| == i
        invariant forall k :: 0 <= k < i ==> !outcomes[k].Failed?
        invariant var whole := rest + Requeued(tried, outcomes);
                  i <= |whole| && tried == whole[..i] && taskQueue == whole[i..]
        invariant forall t :: t in taskQueue ==> t in old(taskQueue)
      {
        if |taskQueue| == 0 {
          return false, evicted, tried, outcomes;
        }
        var task := taskQueue[0];
        assert task in old(taskQueue);
        var placed := RetryNext(task, clock, draws(i), ev, rest, tried, outcomes);
        tried, outcomes := tried + [task], outcomes + [placed];
        if placed.Failed? {
          return false, evicted, tried, outcomes;
        }
      }
      return true, evicted, tried, outcomes;
    }

    /** One turn of the retry loop of `process_task_queue`, keeping the loop's invariants. */
    method RetryNext(task: Task, clock: Metrics.Clock, draw: Draw, ev: Metrics.Evaluator, ghost rest: seq<Task>,
                     ghost tried: seq<Task>, ghost outcomes: seq<Placement>) returns (placed: Placement)
      requires Valid() && ev.Valid() && |taskQueue| > 0 && task == taskQueue[0] && |tried| == |outcomes|
      requires var whole := rest + Requeued(tried, outcomes);
               |tried| <= |whole| && tried == whole[..|tried|] && taskQueue == whole[|tried|..]
      modifies this`taskQueue, LearnersOf(zones), MembersOf(zones), fogLayer, cloudLayer, task, ev
      ensures Valid() && ev.Valid() && ev.deadlineMisses == old(ev.deadlineMisses)
      ensures var tried' := tried + [task];
              var whole := rest + Requeued(tried', outcomes + [placed]);
              |tried'| <= |whole| && tried' == whole[..|tried'|] && taskQueue == whole[|tried'|..]
      ensures forall t :: t in taskQueue ==> t in old(taskQueue)
    {
      ghost var queue := taskQueue;
      placed := RetryHead(task, clock, draw, ev);
      FifoStep(rest, tried, outcomes, queue, placed);
    }

    /** The eviction of `process_task_queue`: the oldest tasks beyond `TASK_QUEUE_SIZE`
     *  leave the queue, one deadline miss each. */
    method EvictOverflow(ev: Metrics.Evaluator) returns (ghost evicted: seq<Task>)
      requires ev.Valid()
      modifies this`taskQueue, ev
      ensures ev.Valid() && ev.deadlineMisses == old(ev.deadlineMisses) + |evicted|
      ensures |evicted| == Overflow(|old(taskQueue)|)
      ensures evicted == old(taskQueue)[..|evicted|] && taskQueue == old(taskQueue)[|evicted|..]
    {
      evicted := [];
      for i := 0 to Overflow(|taskQueue|)
        invariant ev.Valid() && ev.deadlineMisses == old(ev.deadlineMisses) + i
        invariant evicted == old(taskQueue)[..i] && taskQueue == old(taskQueue)[i..]
      {
        evicted := evicted + [taskQueue[0]];
        taskQueue := taskQueue[1..];
        ev.IncrementDeadlineMisses();
      }
    }

    /** One retry of `process_task_queue`: the head of the queue is popped, stamped with the
     *  clock and assigned; the queue keeps the rest, and the task again at its tail when it
     *  was queued. */
    method RetryHead(task: Task, clock: Metrics.Clock, draw: Draw, ev: Metrics.Evaluator) returns (placed: Placement)
      requires Valid() && ev.Valid() && |taskQueue| > 0 && task == taskQueue[0]
      modifies this`taskQueue, LearnersOf(zones), MembersOf(zones), fogLayer, cloudLayer, task, ev
      ensures Valid() && ev.Valid() && ev.deadlineMisses == old(ev.deadlineMisses)
      ensures taskQueue == old(taskQueue)[1..] + (if placed.Queued? then [task] else [])
      ensures task.creationTime == clock.time
    {
      taskQueue := taskQueue[1..];
      task.creationTime := clock.time;
      placed := AssignTask(task.creator, task, draw, ev);
    }

    /** `assign_task`: fully-random mode places the task at random; every other mode goes
     *  through the zones' offers. Either way the task is queued at the tail or not at all, a
     *  placed task is on the node that took it, and no deadline miss is counted. */
    method AssignTask(user: Node, task: Task, draw: Draw, ev: Metrics.Evaluator) returns (placed: Placement)
      requires Valid() && ev.Valid()
      modifies this`taskQueue, LearnersOf(zones), MembersOf(zones), fogLayer, cloudLayer,
              task`assignedNode, task`assignedAction, task`creationState, ev
      ensures Valid() && ev.Valid()
      ensures mode.FullyRandomMode? ==> !placed.Dropped?
      ensures placed.OnFog? ==>
                (mode.FullyRandomMode? ==> placed.node in fogLayer)
                && (!mode.FullyRandomMode? ==> placed.node in old(MembersOf(zones)))
                && placed.node.tasks == old(placed.node.tasks) + [task]
                && placed.node.power == old(placed.node.power) - task.powerNeeded
                && task.assignedNode == placed.node
      ensures placed.OnCloud? ==>
                |cloudLayer| > 0 && old(CloudAdmits(cloudLayer[0], task, user))
                && cloudLayer[0].tasks == old(cloudLayer[0].tasks) + [task]
      ensures placed.Queued? ==> taskQueue == old(taskQueue) + [task]
      ensures !placed.Queued? ==> taskQueue == old(taskQueue)
      ensures ev.deadlineMisses == old(ev.deadlineMisses)
    {
      if mode.FullyRandomMode? {
        placed := AssignTaskRandom(user, task, draw.pick, ev);
      } else {
        placed := AssignByOffers(user, task, draw, ev);
      }
    }

    /** The target zones of `assign_task`: `get_target_zones` for the user's current position
     *  and the one predicted for the end of the task. */
    ghost function TargetZones(user: Node, task: Task, draw: Draw): seq<Zone>
      reads this, user
    {
      var p := user.PredXY(task.execTime, draw.cosAngle, draw.sinAngle);
      Targets(Covering(zones, user.x, user.y), Covering(zones, p.0, p.1), mode.FullyRandomMode?)
    }

    /** The first half of `assign_task`: the target zones around the user's current and
     *  predicted positions, and their offers. Only the zones' learners change, and every
     *  offer names one of the roster's members. */
    method Broadcast(user: Node, task: Task, draw: Draw) returns (offers: seq<Offer>, targets: seq<Zone>)
      requires Valid()
      modifies LearnersOf(zones)
      ensures Valid()
      ensures forall o :: o in offers ==> o.node in old(MembersOf(zones))
      ensures targets == TargetZones(user, task, draw)
      ensures OffersOf(offers, old(Offering(targets, task, user)), old(Rosters(Offering(targets, task, user))))
    {
      targets := TargetsFor(user, task, draw);
      RostersKept(Asked(targets, task, user));
      offers := AskTargets(targets, user, task, draw);
    }

    /** The target zones of `assign_task`, around the user's current position and the one
     *  predicted for the end of the task. */
    method TargetsFor(user: Node, task: Task, draw: Draw) returns (targets: seq<Zone>)
      requires Valid()
      ensures forall z :: z in targets ==> z in zones
      ensures targets == TargetZones(user, task, draw)
    {
      var (px, py) := user.PredXY(task.execTime, draw.cosAngle, draw.sinAngle);
      targets := GetTargetZones(user, px, py);
      TargetsCover(zones, user.x, user.y, px, py, mode.FullyRandomMode?);
    }

    /** `broadcast_to_zones` over target zones of the roster: every offer names a member of
     *  the roster, and only the targets' learners change. */
    method AskTargets(targets: seq<Zone>, user: Node, task: Task, draw: Draw) returns (offers: seq<Offer>)
      requires Valid() && forall z :: z in targets ==> z in zones
      modifies LearnersOf(targets)
      ensures Valid()
      ensures forall o :: o in offers ==> o.node in old(MembersOf(zones))
      ensures OffersOf(offers, old(Offering(targets, task, user)), old(Rosters(Offering(targets, task, user))))
    {
      offers := BroadcastToZones(targets, user, task, draw.roll, draw.choice, draw.cost);
      forall z | z in zones ensures z.Valid() {
        if z.learner in LearnersOf(targets) {
          var t :| t in targets && t.learner == z.learner;
          assert t.Valid();
        }
      }
      forall o | o in offers ensures o.node in old(MembersOf(zones)) {
        var k :| 0 <= k < |offers| && offers[k] == o;
        ghost var z := old(Offering(targets, task, user))[k];
        assert z in zones && o.node in old(z.fogNodes);
      }
    }

    /** `assign_task` outside fully-random mode: the target zones around the user's current
     *  and predicted positions are asked for offers; the offer loop picks one, and the
     *  accepting zone's `accept_offer` places the task on the offered node. When every offer
     *  is refused the cloud fallback follows; when the nearest offer is too far the task is
     *  dropped. The source raises when there is no cloud node, when an offer names no zone
     *  and when an A3C zone accepts. */
    method AssignByOffers(user: Node, task: Task, draw: Draw, ev: Metrics.Evaluator) returns (placed: Placement)
      requires Valid() && ev.Valid()
      modifies this`taskQueue, LearnersOf(zones), MembersOf(zones), cloudLayer,
              task`assignedNode, task`assignedAction, task`creationState, ev
      ensures Valid() && ev.Valid()
      ensures placed.OnFog? ==>
                placed.node in old(MembersOf(zones))
                && placed.node.tasks == old(placed.node.tasks) + [task]
                && placed.node.power == old(placed.node.power) - task.powerNeeded
                && task.assignedNode == placed.node
      ensures placed.OnCloud? ==>
                |cloudLayer| > 0 && old(CloudAdmits(cloudLayer[0], task, user))
                && cloudLayer[0].tasks == old(cloudLayer[0].tasks) + [task]
                && ev.cloudTasks == old(ev.cloudTasks) + 1
      ensures placed.Queued? ==> |cloudLayer| > 0 && !old(CloudAdmits(cloudLayer[0], task, user))
      ensures placed.Dropped? ==>
                |cloudLayer| > 0 && unchanged(task) && placed.offer.node in old(MembersOf(zones))
                && !NearEnough(old(Dsq(placed.offer, user)), old(cloudLayer[0].DistSqTo(user.x, user.y)))
      ensures placed.Queued? ==> taskQueue == old(taskQueue) + [task]
      ensures !placed.Queued? ==> taskQueue == old(taskQueue)
      ensures ev.deadlineMisses == old(ev.deadlineMisses)
    {
      var offers, targets := Broadcast(user, task, draw);
      placed := Place(offers, user, task, ev);
    }

    /** The second half of `assign_task`: the offer loop, then the accept, the cloud
     *  fallback, the drop or the raise. */
    method Place(offers: seq<Offer>, user: Node, task: Task, ev: Metrics.Evaluator) returns (placed: Placement)
      requires Valid() && ev.Valid() && forall o :: o in offers ==> o.node in MembersOf(zones)
      modifies this`taskQueue, MembersOf(zones), cloudLayer, task`assignedNode, task`assignedAction, task`creationState, ev
      ensures Valid() && ev.Valid()
      ensures placed.OnFog? ==>
                placed.node in old(MembersOf(zones))
                && placed.node.tasks == old(placed.node.tasks) + [task]
                && placed.node.power == old(placed.node.power) - task.powerNeeded
                && task.assignedNode == placed.node
      ensures placed.OnCloud? ==>
                |cloudLayer| > 0 && old(CloudAdmits(cloudLayer[0], task, user))
                && cloudLayer[0].tasks == old(cloudLayer[0].tasks) + [task]
                && ev.cloudTasks == old(ev.cloudTasks) + 1
      ensures placed.Queued? ==> |cloudLayer| > 0 && !old(CloudAdmits(cloudLayer[0], task, user))
      ensures placed.Dropped? ==>
                |cloudLayer| > 0 && unchanged(task) && placed.offer.node in old(MembersOf(zones))
                && !NearEnough(old(Dsq(placed.offer, user)), old(cloudLayer[0].DistSqTo(user.x, user.y)))
      ensures placed.Queued? ==> taskQueue == old(taskQueue) + [task]
      ensures !placed.Queued? ==> taskQueue == old(taskQueue)
      ensures placed.OnCloud? || placed.Queued? ==> forall p :: p in offers ==> old(Refused(p, zones, task, user))
      ensures placed.Dropped? ==>
                placed.offer in offers
                && forall p :: p in offers && old(Dsq(p, user)) < old(Dsq(placed.offer, user)) ==> old(Refused(p, zones, task, user))
      ensures ev.deadlineMisses == old(ev.deadlineMisses)
    {
      if |cloudLayer| == 0 {
        return Failed;
      }
      var cloudDsq := cloudLayer[0].DistSqTo(user.x, user.y);
      var run := OfferLoop(offers, user, task, cloudDsq);
      match run
      case Accepted(zone, offer) =>
        var accepted, ok := Accept(zone, user, task, offer, ev);
        assert accepted;
        if !ok {
          return Failed;
        }
        return OnFog(offer.node);
      case Exhausted =>
        placed := CloudFallback(cloudLayer[0], user, task, ev);
      case Beyond(offer) =>
        return Dropped(offer);
      case Raised =>
        return Failed;
    }

    // -------------------------------------------------------------------------
    // The tick: `update_topology`.

    /** `send_cloud_task_result_to_owner`: find the task's creator in the graph by id and
     *  deliver the result to it. With no node of that id the source fails (`ok` false)
     *  before anything changes. */
    method SendCloudTaskResultToOwner(task: Task, clock: Metrics.Clock, ev: Metrics.Evaluator) returns (ok: bool)
      requires ev.Valid()
      modifies task`isDeadlineMissed, task`assignedNode, ev
      ensures ev.Valid() && ev.countedIds == old(ev.countedIds)
      ensures ok <==> WithId(graph.nodes, task.creator.id) != null
      ensures !ok ==> task.isDeadlineMissed == old(task.isDeadlineMissed) && task.assignedNode == old(task.assignedNode)
                      && ev.Snapshot() == old(ev.Snapshot())
      ensures ok ==> task.isDeadlineMissed == (clock.time > task.deadline) && task.assignedNode == null
                     && ev.Snapshot() == (if task.isDeadlineMissed then old(ev.Snapshot()).(
                                            deadlineMisses := old(ev.deadlineMisses) + 1,
                                            currentStepDeadlineMisses := old(ev.currentStepDeadlineMisses) + 1)
                                          else old(ev.Snapshot()))
    {
      var owner := GetNode(task.creator.id);
      if owner == null {
        return false;
      }
      owner.DeliverTaskResult(task, clock, ev);
      ok := true;
    }

    /** One completed task of the cloud walk: take it off the node and send its result.
     *  Whether the tasks `rest` are complete does not change. */
    method ReleaseCloudTask(node: Node, task: Task, clock: Metrics.Clock, ev: Metrics.Evaluator, ghost rest: seq<Task>)
      returns (ok: bool)
      requires ev.Valid() && task in node.tasks && task !in rest
      modifies node`tasks, node`power, task`isDeadlineMissed, task`assignedNode, ev
      ensures ev.Valid()
      ensures node.tasks == RemoveFirst(old(node.tasks), task)
      ensures node.power == old(node.power) + task.powerNeeded
      ensures ok <==> WithId(graph.nodes, task.creator.id) != null
      ensures forall t :: t in rest ==> Completed(node, t, clock) == old(Completed(node, t, clock))
    {
      node.RemoveTask(task);
      ok := SendCloudTaskResultToOwner(task, clock, ev);
    }

    /** One turn of the cloud task walk, at index `i` of the live list; the ghost arguments
     *  follow the walk over the original list `s` (see `Lists.WalkAt`). */
    method CloudStep(node: Node, clock: Metrics.Clock, ev: Metrics.Evaluator, i: nat, ghost s: seq<Task>,
                     ghost gone: seq<bool>, ghost j: nat, ghost done: seq<Task>)
      returns (ok: bool, next: nat, ghost nextJ: nat, ghost nextDone: seq<Task>)
      requires ev.Valid()
      requires |gone| == |s| && i < |node.tasks| && forall t :: t in node.tasks ==> t in s
      requires Distinct(s) ==> WalkAt(s, gone, node.tasks, i, j, done) && Marked(node, s, gone, j, clock)
      modifies node`tasks, node`power, s, ev
      ensures ev.Valid()
      ensures next <= |node.tasks| && |node.tasks| - next < old(|node.tasks|) - i
      ensures forall t :: t in node.tasks ==> t in s
      ensures node.power + PowerSum(done) == old(node.power) + PowerSum(nextDone)
      ensures ok && Distinct(s) ==> WalkAt(s, gone, node.tasks, next, nextJ, nextDone) && Marked(node, s, gone, nextJ, clock)
    {
      var task := node.tasks[i];
      assert task in s;
      if Distinct(s) {
        WalkLooksAt(s, gone, node.tasks, i, j, done);
      }
      var finished := node.IsDone(task, clock);
      assert Distinct(s) ==> Marked(node, s, gone, j, clock) && gone[j] == finished;
      if finished {
        ok, next, nextJ := CloudRelease(node, clock, ev, i, s, gone, j, done);
        nextDone := done + [task];
        assert nextDone[..|done|] == done;
      } else {
        if Distinct(s) {
          WalkKeeps(s, gone, node.tasks, i, j, done);
        }
        ok, next, nextJ, nextDone := true, i + 1, j + 1, done;
      }
    }

    /** The turn of the cloud walk that finds the task at index `i` complete. */
    method CloudRelease(node: Node, clock: Metrics.Clock, ev: Metrics.Evaluator, i: nat, ghost s: seq<Task>,
                        ghost gone: seq<bool>, ghost j: nat, ghost done: seq<Task>)
      returns (ok: bool, next: nat, ghost nextJ: nat)
      requires ev.Valid()
      requires |gone| == |s| && i < |node.tasks| && forall t :: t in node.tasks ==> t in s
      requires Distinct(s) ==> WalkAt(s, gone, node.tasks, i, j, done) && Marked(node, s, gone, j, clock)
                               && j < |s| && node.tasks[i] == s[j] && gone[j]
      modifies node`tasks, node`power, s, ev
      ensures ev.Valid()
      ensures next <= |node.tasks| && |node.tasks| - next < old(|node.tasks|) - i
      ensures forall t :: t in node.tasks ==> t in s
      ensures node.power == old(node.power) + old(node.tasks[i]).powerNeeded
      ensures ok && Distinct(s) ==> WalkAt(s, gone, node.tasks, next, nextJ, done + [old(node.tasks[i])])
      ensures ok && Distinct(s) ==> Marked(node, s, gone, nextJ, clock)
    {
      var task := node.tasks[i];
      assert task in s;
      ghost var rest := if Distinct(s) then s[j + 1..] else [];
      if Distinct(s) {
        WalkRemoves(s, gone, node.tasks, i, j, done);
      }
      RemoveFirstKeeps(node.tasks, task);
      ok := ReleaseCloudTask(node, task, clock, ev, rest);
      assert Distinct(s) ==> forall k :: j + 1 <= k < |s| ==> s[k] in rest;
      // the task that slid into slot `i` is passed over
      next := if i < |node.tasks| then i + 1 else i;
      nextJ := if j + 1 < |s| then j + 2 else j + 1;
    }

    /** The task loop of `update_topology` for one cloud node: every task found complete
     *  when the walk reaches it is removed, which gives its power back, and its result goes
     *  to its creator; a creator missing from the graph ends the walk (the source fails).
     *  As in a zone's walk, the task that slides into a freed slot waits for the next tick. */
    method ReleaseCloudTasks(node: Node, clock: Metrics.Clock, ev: Metrics.Evaluator) returns (ok: bool, ghost gone: seq<bool>)
      requires ev.Valid()
      modifies node`tasks, node`power, node.tasks, ev
      ensures ev.Valid()
      ensures gone == old(DoneMarks(node, node.tasks, clock))
      ensures Shrunk(node, old(node.tasks))
      ensures ok ==> Released(node, old(node.tasks), old(node.power), gone)
    {
      ghost var s := node.tasks;
      gone := DoneMarks(node, s, clock);
      ghost var j: nat := 0;
      ghost var done: seq<Task> := [];
      WalkStarts(s, gone);
      var i: nat := 0;
      ok := true;
      while i < |node.tasks|
        invariant i <= |node.tasks|
        invariant forall t :: t in node.tasks ==> t in s
        invariant ev.Valid()
        invariant node.power == old(node.power) + PowerSum(done)
        invariant Distinct(s) ==> WalkAt(s, gone, node.tasks, i, j, done) && Marked(node, s, gone, j, clock)
        decreases |node.tasks| - i
      {
        ok, i, j, done := CloudStep(node, clock, ev, i, s, gone, j, done);
        if !ok {
          return;
        }
      }
      if Distinct(s) {
        WalkEnds(s, gone, node.tasks, i, j, done);
      }
    }

    /** The cloud loop of `update_topology`: the task walk of every cloud node in turn; a
     *  failure ends the loop there. No cloud node moves or gains a task; on a layer without
     *  repeats each node is left as its walk leaves it. */
    method CloudSweep(clock: Metrics.Clock, ev: Metrics.Evaluator) returns (ok: bool, ghost marks: map<Node, seq<bool>>)
      requires ev.Valid()
      modifies cloudLayer, TasksOf(cloudLayer), ev
      ensures ev.Valid()
      ensures forall n :: n in cloudLayer ==> Mobility.PoseOf(n) == old(Mobility.PoseOf(n)) && Shrunk(n, old(n.tasks))
      ensures ok && Distinct(cloudLayer) ==>
                forall n :: n in cloudLayer ==> n in marks && Released(n, old(n.tasks), old(n.power), marks[n])
      ensures ok && Distinct(cloudLayer) && old(TasksApart(cloudLayer)) ==>
                forall n :: n in cloudLayer ==> n in marks && marks[n] == old(DoneMarks(n, n.tasks, clock))
    {
      ghost var tasks0 := map n | n in cloudLayer :: n.tasks;
      ghost var power0 := map n | n in cloudLayer :: n.power;
      ghost var pos0 := map n | n in cloudLayer :: Mobility.PoseOf(n);
      ghost var done0 := map n | n in cloudLayer :: DoneMarks(n, n.tasks, clock);
      ghost var apart := Distinct(cloudLayer) && TasksApart(cloudLayer);
      ghost var all := TasksOf(cloudLayer);
      assert Covers(tasks0, all);
      assert apart ==> ListsApart(cloudLayer, tasks0);
      marks := map[];
      ok := true;
      for i := 0 to |cloudLayer|
        invariant ev.Valid() && Kept(cloudLayer, tasks0, pos0)
        invariant Distinct(cloudLayer) ==> Swept(cloudLayer, i, tasks0, power0, marks)
        invariant apart ==> MarkedAsFound(cloudLayer, i, done0, marks)
        invariant apart ==> MarksAhead(cloudLayer, i, tasks0, done0, clock)
      {
        ok, marks := CloudSweepStep(clock, ev, i, tasks0, power0, pos0, marks, all, apart, done0);
        if !ok {
          return;
        }
      }
      if Distinct(cloudLayer) {
        SweptAll(cloudLayer, tasks0, power0, marks, done0, apart);
      }
    }

    /** One turn of the cloud loop, keeping the loop's invariants. */
    method CloudSweepStep(clock: Metrics.Clock, ev: Metrics.Evaluator, i: nat, ghost tasks0: map<Node, seq<Task>>,
                          ghost power0: map<Node, real>, ghost pos0: map<Node, Mobility.Pose>,
                          ghost marks: map<Node, seq<bool>>, ghost all: set<Task>, ghost apart: bool,
                          ghost done0: map<Node, seq<bool>>)
      returns (ok: bool, ghost marks': map<Node, seq<bool>>)
      requires ev.Valid() && i < |cloudLayer| && Kept(cloudLayer, tasks0, pos0) && Covers(tasks0, all)
      requires Distinct(cloudLayer) ==> Swept(cloudLayer, i, tasks0, power0, marks)
      requires apart ==> Distinct(cloudLayer) && ListsApart(cloudLayer, tasks0) && MarkedAsFound(cloudLayer, i, done0, marks)
      requires apart ==> MarksAhead(cloudLayer, i, tasks0, done0, clock)
      modifies cloudLayer[i], all, ev
      ensures ev.Valid() && Kept(cloudLayer, tasks0, pos0)
      ensures ok && Distinct(cloudLayer) ==> Swept(cloudLayer, i + 1, tasks0, power0, marks')
      ensures apart ==> MarkedAsFound(cloudLayer, i + 1, done0, marks')
      ensures apart ==> MarksAhead(cloudLayer, i + 1, tasks0, done0, clock)
    {
      var node := cloudLayer[i];
      assert node in tasks0 && Shrunk(node, tasks0[node]);
      assert forall t :: t in node.tasks ==> t in tasks0[node];
      ghost var gone: seq<bool>;
      ok, gone := CloudWalk(i, clock, ev, tasks0, apart);
      marks' := marks[node := gone];
      if Distinct(cloudLayer) {
        forall k | 0 <= k < |cloudLayer| && k != i ensures cloudLayer[k] != node {
        }
      }
    }

    /** The task walk of cloud node `i`, seen from the cloud loop: it leaves the marks the
     *  other nodes' walks will find as they were. */
    method CloudWalk(i: nat, clock: Metrics.Clock, ev: Metrics.Evaluator, ghost tasks0: map<Node, seq<Task>>,
                     ghost apart: bool) returns (ok: bool, ghost gone: seq<bool>)
      requires ev.Valid() && i < |cloudLayer| && cloudLayer[i] in tasks0
      requires apart ==> Distinct(cloudLayer) && ListsApart(cloudLayer, tasks0)
      modifies cloudLayer[i], cloudLayer[i].tasks, ev
      ensures ev.Valid()
      ensures gone == old(DoneMarks(cloudLayer[i], cloudLayer[i].tasks, clock))
      ensures Mobility.PoseOf(cloudLayer[i]) == old(Mobility.PoseOf(cloudLayer[i]))
      ensures Shrunk(cloudLayer[i], old(cloudLayer[i].tasks))
      ensures ok ==> Released(cloudLayer[i], old(cloudLayer[i].tasks), old(cloudLayer[i].power), gone)
      ensures apart && old(cloudLayer[i].tasks) == tasks0[cloudLayer[i]] ==>
                forall k :: 0 <= k < |cloudLayer| && k != i && cloudLayer[k] in tasks0 ==>
                  DoneMarks(cloudLayer[k], tasks0[cloudLayer[k]], clock) == old(DoneMarks(cloudLayer[k], tasks0[cloudLayer[k]], clock))
    {
      ok, gone := ReleaseCloudTasks(cloudLayer[i], clock, ev);
      if apart && old(cloudLayer[i].tasks) == tasks0[cloudLayer[i]] {
        forall k | 0 <= k < |cloudLayer| && k != i && cloudLayer[k] in tasks0
          ensures DoneMarks(cloudLayer[k], tasks0[cloudLayer[k]], clock) == old(DoneMarks(cloudLayer[k], tasks0[cloudLayer[k]], clock))
        {
          var n, s := cloudLayer[k], tasks0[cloudLayer[k]];
          assert n != cloudLayer[i];
          forall j | 0 <= j < |s| ensures Completed(n, s[j], clock) == old(Completed(n, s[j], clock)) {
            assert s[j] !in tasks0[cloudLayer[i]];
          }
        }
      }
    }

    /** The zone loop of `update_topology`: every zone's `update` in roster order, each with
     *  this roster; a failure ends the loop there. Nodes only move between zones, and no
     *  member gains a task. */
    method UpdateZones(clock: Metrics.Clock, ev: Metrics.Evaluator) returns (ok: bool)
      requires Valid() && ev.Valid()
      modifies zones, MembersOf(zones), HeldBy(MembersOf(zones)), ev, LearnersOf(zones)
      ensures Valid() && ev.Valid()
      ensures MembersOf(zones) <= old(MembersOf(zones))
      ensures forall n :: n in old(MembersOf(zones)) ==> Mobility.PoseOf(n) == old(Mobility.PoseOf(n)) && Shrunk(n, old(n.tasks))
    {
      ghost var members := MembersOf(zones);
      ok := true;
      for i := 0 to |zones|
        invariant Valid() && ev.Valid()
        invariant MembersOf(zones) <= members
        invariant forall n :: n in members ==> Mobility.PoseOf(n) == old(Mobility.PoseOf(n)) && Shrunk(n, old(n.tasks))
      {
        ok := UpdateZone(i, clock, ev, members);
        if !ok {
          return;
        }
      }
    }

    /** One turn of the zone loop, keeping the loop's invariants. */
    method UpdateZone(i: nat, clock: Metrics.Clock, ev: Metrics.Evaluator, ghost members: set<Node>) returns (ok: bool)
      requires Valid() && ev.Valid() && i < |zones| && MembersOf(zones) <= members
      modifies zones, MembersOf(zones), HeldBy(MembersOf(zones)), ev, LearnersOf(zones)
      ensures Valid() && ev.Valid() && MembersOf(zones) <= members
      ensures forall n :: n in members ==> Mobility.PoseOf(n) == old(Mobility.PoseOf(n)) && Shrunk(n, old(n.tasks))
    {
      var zone := zones[i];
      ghost var before := map z | z in zones :: z.fogNodes;
      ghost var out: seq<bool>;
      ghost var marks: map<Node, seq<bool>>;
      assert forall n :: n in zone.fogNodes ==> n in MembersOf(zones);
      ok, out, marks := RunZone(zone, clock, ev, members);
      ghost var after := map z | z in zones :: z.fogNodes;
      RosterDrawsFrom(zones, zone, before, after, out, ok, members);
      forall n | n in MembersOf(zones) ensures n in members {
        var z :| z in zones && n in z.fogNodes;
        assert n in after[z];
      }
    }

    /** A zone's `update` inside the zone loop, seen from the topology. */
    method RunZone(zone: Zone, clock: Metrics.Clock, ev: Metrics.Evaluator, ghost members: set<Node>)
      returns (ok: bool, ghost out: seq<bool>, ghost marks: map<Node, seq<bool>>)
      requires Valid() && ev.Valid() && zone in zones && MembersOf(zones) <= members
      modifies zones, zone.fogNodes, TasksOf(zone.fogNodes), ev, LearnersOf(zones)
      ensures Valid() && ev.Valid()
      ensures forall n :: n in members ==> Mobility.PoseOf(n) == old(Mobility.PoseOf(n)) && Shrunk(n, old(n.tasks))
      ensures ok ==> forall n :: n in old(zone.fogNodes) ==> n in marks && Released(n, old(n.tasks), old(n.power), marks[n])
      ensures ok && old(TasksApart(zone.fogNodes)) ==>
                forall n :: n in old(zone.fogNodes) ==> n in marks && marks[n] == old(DoneMarks(n, n.tasks, clock))
      ensures out == old(zone.Outside(zone.fogNodes))
      ensures ok ==> zone.fogNodes == Survivors(old(zone.fogNodes), out, 0)
      ensures ok ==> forall z :: z in zones && z != zone ==>
                       z.fogNodes == Rejoined(old(z.fogNodes), zones, Removed(old(zone.fogNodes), out, 0), z)
      ensures !ok ==> forall z :: z in zones ==> z.fogNodes == old(z.fogNodes)
    {
      out := zone.Outside(zone.fogNodes);
      ok, marks := zone.Update(zones, graph, clock, ev);
    }

    /** `update_topology`: one tick. The graph moves its nodes to the clock's next step (the
     *  source fails when the trace has no such step), then the zones and the cloud release
     *  what their nodes have completed (`ReleaseTick`). */
    method UpdateTopology(clock: Metrics.Clock, ev: Metrics.Evaluator) returns (ok: bool, ghost marks: map<Node, seq<bool>>)
      requires Valid() && ev.Valid()
      modifies clock, graph.nodes, zones, MembersOf(zones), HeldBy(MembersOf(zones)), ev, LearnersOf(zones),
               cloudLayer, TasksOf(cloudLayer)
      ensures Valid() && ev.Valid() && taskQueue == old(taskQueue) && zones == old(zones)
      ensures clock.time == old(clock.time) + 1.0
      ensures ok ==> clock.time in graph.graph
      ensures clock.time in graph.graph ==>
                forall n :: n in graph.nodes ==> Mobility.PoseOf(n) == Mobility.Moved(old(Mobility.PoseOf(n)), graph.graph[clock.time], n.id)
      ensures forall n :: n in old(MembersOf(zones)) ==> Shrunk(n, old(n.tasks))
      ensures forall n :: n in cloudLayer ==> Shrunk(n, old(n.tasks))
      ensures ok && Distinct(cloudLayer) && (forall n :: n in cloudLayer ==> n !in old(MembersOf(zones))) ==>
                forall n :: n in cloudLayer ==> n in marks && Released(n, old(n.tasks), old(n.power), marks[n])
    {
      var moved: seq<Node>;
      marks := map[];
      ok, moved := graph.UpdateGraph(clock);
      if !ok {
        return;
      }
      ok, marks := ReleaseTick(clock, ev);
    }

    /** The rest of `update_topology` once the nodes have moved: every zone updates in roster
     *  order, then every cloud node releases the tasks it has completed; a failure ends the
     *  tick there. Nodes only move between zones, and no node of a zone or of the cloud
     *  gains a task. */
    method ReleaseTick(clock: Metrics.Clock, ev: Metrics.Evaluator) returns (ok: bool, ghost marks: map<Node, seq<bool>>)
      requires Valid() && ev.Valid()
      modifies zones, MembersOf(zones), HeldBy(MembersOf(zones)), ev, LearnersOf(zones), cloudLayer, TasksOf(cloudLayer)
      ensures Valid() && ev.Valid()
      ensures MembersOf(zones) <= old(MembersOf(zones))
      ensures forall n :: n in old(MembersOf(zones)) ==> Mobility.PoseOf(n) == old(Mobility.PoseOf(n)) && Shrunk(n, old(n.tasks))
      ensures forall n :: n in cloudLayer ==> Mobility.PoseOf(n) == old(Mobility.PoseOf(n)) && Shrunk(n, old(n.tasks))
      ensures ok && Distinct(cloudLayer) && (forall n :: n in cloudLayer ==> n !in old(MembersOf(zones))) ==>
                forall n :: n in cloudLayer ==> n in marks && Released(n, old(n.tasks), old(n.power), marks[n])
      ensures ok && old(CloudApart()) ==>
                forall n :: n in cloudLayer ==> n in marks && marks[n] == old(DoneMarks(n, n.tasks, clock))
    {
      marks := map[];
      ok := ZonesBeforeCloud(clock, ev);
      if !ok {
        return;
      }
      ok, marks := CloudSweep(clock, ev);
    }

    /** The zone loop as the cloud loop after it relies on it: when the cloud is apart from
     *  the zones, its nodes, and which of their tasks are complete, are as they were. */
    method ZonesBeforeCloud(clock: Metrics.Clock, ev: Metrics.Evaluator) returns (ok: bool)
      requires Valid() && ev.Valid()
      modifies zones, MembersOf(zones), HeldBy(MembersOf(zones)), ev, LearnersOf(zones)
      ensures Valid() && ev.Valid()
      ensures MembersOf(zones) <= old(MembersOf(zones))
      ensures forall n :: n in old(MembersOf(zones)) ==> Mobility.PoseOf(n) == old(Mobility.PoseOf(n)) && Shrunk(n, old(n.tasks))
      ensures forall n :: n in cloudLayer && n !in old(MembersOf(zones)) ==> unchanged(n)
      ensures old(CloudApart()) ==>
                TasksApart(cloudLayer) && forall n :: n in cloudLayer ==> DoneMarks(n, n.tasks, clock) == old(DoneMarks(n, n.tasks, clock))
    {
      ghost var members := MembersOf(zones);
      ghost var held := HeldBy(members);
      ok := UpdateZones(clock, ev);
      if old(CloudApart()) {
        forall n | n in cloudLayer ensures DoneMarks(n, n.tasks, clock) == old(DoneMarks(n, n.tasks, clock)) {
          assert n !in members && n.tasks == old(n.tasks);
          forall j | 0 <= j < |n.tasks| ensures Completed(n, n.tasks[j], clock) == old(Completed(n, n.tasks[j], clock)) {
            assert n.tasks[j] in old(n.tasks) && n.tasks[j] !in held;
          }
        }
      }
    }

    /** The cloud nodes are apart from the zones' nodes and from each other: none is a zone
     *  member, no two share a task, and no zone member holds a cloud node's task. */
    ghost predicate CloudApart()
      reads this`zones, zones, MembersOf(zones), cloudLayer
    {
      && Distinct(cloudLayer)
      && TasksApart(cloudLayer)
      && forall n :: n in cloudLayer ==> n !in MembersOf(zones) && forall t :: t in n.tasks ==> t !in HeldBy(MembersOf(zones))
    }
  }

  /** A zone's accept, as far as the offer loop relies on it: the node takes the task exactly
   *  when it is among the zone's possible nodes, and a refusal changes nothing. */
  method Accept(zone: Zone, user: Node, task: Task, offer: Offer, ev: Metrics.Evaluator) returns (accepted: bool, ok: bool)
    requires zone.Valid() && ev.Valid()
    modifies offer.node`tasks, offer.node`power, task`assignedNode, task`assignedAction, task`creationState, ev
    ensures zone.Valid() && ev.Valid()
    ensures accepted == old(offer.node in zone.PossibleNodes(task, user))
    ensures !accepted ==> ok && unchanged(offer.node) && unchanged(task)
    ensures !accepted ==> ev.Snapshot() == old(ev.Snapshot()) && ev.countedIds == old(ev.countedIds)
    ensures ev.deadlineMisses == old(ev.deadlineMisses)
    ensures accepted ==> offer.node.tasks == old(offer.node.tasks) + [task]
                         && offer.node.power == old(offer.node.power) - task.powerNeeded
                         && task.assignedNode == offer.node
  {
    accepted, ok := zone.AcceptOffer(user, task, offer, ev);
  }
}
