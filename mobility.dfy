/** The mobility graph (Code/Graph.py): the nodes of the simulation and, for every time step,
 *  where the moving nodes are. Advancing the graph moves the clock one step on and copies each
 *  node's new position, heading and speed from that step's record. */
module Mobility {
  import opened Wrappers
  import opened Entities
  import Metrics
  import Lists

  /** Where a node is and how it moves. */
  datatype Pose = Pose(x: real, y: real, angle: real, speed: real)

  /** One node's record in a time step of the trace: its id and its pose at that step. */
  datatype Sighting = Sighting(id: string, pose: Pose)

  function PoseOf(n: Node): Pose
    reads n`x, n`y, n`angle, n`speed
  {
    Pose(n.x, n.y, n.angle, n.speed)
  }

  /** The first record of `step` for node `id` (the `next(...)` search of `update_graph`). */
  function FirstSighting(step: seq<Sighting>, id: string): (r: Option<Pose>)
    ensures r.Some? ==> exists k :: 0 <= k < |step| && step[k].id == id && step[k].pose == r.value
                                    && forall j :: 0 <= j < k ==> step[j].id != id
    ensures r.None? <==> forall j :: 0 <= j < |step| ==> step[j].id != id
  {
    if |step| == 0 then None
    else if step[0].id == id then Some(step[0].pose)
    else FirstSighting(step[1..], id)
  }

  /** The pose of node `id` after the step: the recorded one, or the old one when the step
   *  has no record of the node. */
  function Moved(old_: Pose, step: seq<Sighting>, id: string): Pose
  {
    match FirstSighting(step, id)
    case Some(p) => p
    case None => old_
  }

  /** Moving twice to the same step is moving once, so a node listed twice in the graph ends
   *  where it would have ended listed once. */
  lemma MovedIdempotent(p: Pose, step: seq<Sighting>, id: string)
    ensures Moved(Moved(p, step, id), step, id) == Moved(p, step, id)
  {
  }

  /** Only the node's own records matter: records of other nodes added to a step do not move
   *  it, and an earlier record of its own hides every later one. */
  lemma {:induction false} MovedByOwnRecord(p: Pose, step: seq<Sighting>, extra: Sighting, id: string)
    ensures extra.id != id ==> Moved(p, step + [extra], id) == Moved(p, step, id)
    ensures FirstSighting(step, id).Some? ==> Moved(p, step + [extra], id) == Moved(p, step, id)
    ensures FirstSighting(step, id).None? && extra.id == id ==> Moved(p, step + [extra], id) == extra.pose
  {
    if |step| > 0 {
      assert (step + [extra])[1..] == step[1..] + [extra];
      if step[0].id != id {
        MovedByOwnRecord(p, step[1..], extra, id);
      }
    }
  }

  /** The nodes of one layer, in the order of `nodes`. */
  function OfLayer(nodes: seq<Node>, layer: Layer): (r: seq<Node>)
    ensures forall n :: n in r ==> n in nodes && n.layer == layer
    ensures forall n :: n in nodes && n.layer == layer ==> n in r
  {
    if |nodes| == 0 then []
    else OfLayer(nodes[..|nodes| - 1], layer) + (if nodes[|nodes| - 1].layer == layer then [nodes[|nodes| - 1]] else [])
  }

  /** Filtering by layer keeps the order: the filter of a concatenation is the concatenation
   *  of the filters. */
  lemma {:induction false} OfLayerConcat(a: seq<Node>, b: seq<Node>, layer: Layer)
    ensures OfLayer(a + b, layer) == OfLayer(a, layer) + OfLayer(b, layer)
    decreases |b|
  {
    if |b| == 0 {
      assert a + b == a;
    } else {
      var b', x := b[..|b| - 1], b[|b| - 1];
      assert (a + b)[..|a + b| - 1] == a + b' && (a + b)[|a + b| - 1] == x;
      OfLayerLast(a + b, layer);
      OfLayerLast(b, layer);
      OfLayerConcat(a, b', layer);
      Lists.ConcatAssoc(OfLayer(a, layer), OfLayer(b', layer), if x.layer == layer then [x] else []);
    }
  }

  /** The filter of a non-empty sequence ends with its last node exactly when that node is
   *  of the layer. */
  lemma OfLayerLast(s: seq<Node>, layer: Layer)
    requires |s| > 0
    ensures OfLayer(s, layer)
         == OfLayer(s[..|s| - 1], layer) + (if s[|s| - 1].layer == layer then [s[|s| - 1]] else [])
  {
  }

  /** Every node is in exactly one layer, so the three filters share out the nodes. */
  lemma {:induction false} LayersPartition(nodes: seq<Node>)
    ensures multiset(OfLayer(nodes, Users)) + multiset(OfLayer(nodes, Fog)) + multiset(OfLayer(nodes, Cloud))
         == multiset(nodes)
    decreases |nodes|
  {
    if |nodes| > 0 {
      var init := nodes[..|nodes| - 1];
      var last := nodes[|nodes| - 1];
      LayersPartition(init);
      OfLayerSnoc(nodes, Users);
      OfLayerSnoc(nodes, Fog);
      OfLayerSnoc(nodes, Cloud);
      PartitionGrows(multiset(OfLayer(init, Users)), multiset(OfLayer(init, Fog)), multiset(OfLayer(init, Cloud)),
                     multiset(OfLayer(nodes, Users)), multiset(OfLayer(nodes, Fog)), multiset(OfLayer(nodes, Cloud)),
                     multiset(init), multiset(nodes), last);
    }
  }

  /** The last node of a list counts in the filter of its own layer only. */
  lemma OfLayerSnoc(nodes: seq<Node>, layer: Layer)
    requires |nodes| > 0
    ensures multiset(nodes) == multiset(nodes[..|nodes| - 1]) + multiset{nodes[|nodes| - 1]}
    ensures multiset(OfLayer(nodes, layer))
            == multiset(OfLayer(nodes[..|nodes| - 1], layer))
               + (if nodes[|nodes| - 1].layer == layer then multiset{nodes[|nodes| - 1]} else multiset{})
  {
    assert nodes == nodes[..|nodes| - 1] + [nodes[|nodes| - 1]];
  }

  /** A partition into three layers stays one when a node joins the part of its layer. */
  lemma PartitionGrows(u: multiset<Node>, f: multiset<Node>, c: multiset<Node>,
                       u': multiset<Node>, f': multiset<Node>, c': multiset<Node>,
                       m: multiset<Node>, m': multiset<Node>, x: Node)
    requires u + f + c == m && m' == m + multiset{x}
    requires u' == u + (if x.layer == Users then multiset{x} else multiset{})
    requires f' == f + (if x.layer == Fog then multiset{x} else multiset{})
    requires c' == c + (if x.layer == Cloud then multiset{x} else multiset{})
    ensures u' + f' + c' == m'
  {
    match x.layer {
      case Users => assert u' == u + multiset{x} && f' == f && c' == c;
      case Fog => assert u' == u && f' == f + multiset{x} && c' == c;
      case Cloud => assert u' == u && f' == f && c' == c + multiset{x};
    }
  }

  class MobilityGraph {
    /** The nodes currently in the simulation. */
    var nodes: seq<Node>
    /** For each time step, the records of that step. */
    var graph: map<real, seq<Sighting>>

    /** `init_graph`, with the parsed trace given: the clock starts at the first step and the
     *  graph's nodes are the ones of that step. */
    constructor (graph: map<real, seq<Sighting>>, first: real, nodes: seq<Node>, clock: Metrics.Clock)
      requires first in graph && forall t :: t in graph ==> first <= t
      modifies clock
      ensures this.graph == graph && this.nodes == nodes && clock.time == first
    {
      this.graph := graph;
      this.nodes := nodes;
      clock.time := first;
    }

    /** `update_graph`: the clock moves one step on, then every node takes the pose recorded
     *  for it at the new time; a node without a record there keeps its pose. When the trace
     *  has no step at the new time the source raises `KeyError` after moving the clock:
     *  `ok` is false and no node has moved. Power, tasks and the node list never change. */
    method UpdateGraph(clock: Metrics.Clock) returns (ok: bool, moved: seq<Node>)
      modifies clock, nodes
      ensures clock.time == old(clock.time) + 1.0
      ensures ok <==> clock.time in graph
      ensures ok ==> moved == nodes
      ensures forall n :: n in nodes ==>
                PoseOf(n) == (if ok then Moved(old(PoseOf(n)), graph[clock.time], n.id) else old(PoseOf(n)))
      ensures forall n :: n in nodes ==> n.power == old(n.power) && n.tasks == old(n.tasks)
    {
      clock.time := clock.time + 1.0;
      if clock.time !in graph {
        return false, [];
      }
      MoveAll(nodes, graph[clock.time]);
      return true, nodes;
    }

    /** `get_user_nodes`. */
    function GetUserNodes(): (r: seq<Node>)
      reads this`nodes
      ensures forall n :: n in r ==> n in nodes && n.layer == Users
      ensures forall n :: n in nodes && n.layer == Users ==> n in r
    {
      OfLayer(nodes, Users)
    }

    /** `get_moving_fog_nodes`. */
    function GetMovingFogNodes(): (r: seq<Node>)
      reads this`nodes
      ensures forall n :: n in r ==> n in nodes && n.layer == Fog
      ensures forall n :: n in nodes && n.layer == Fog ==> n in r
    {
      OfLayer(nodes, Fog)
    }

    /** `get_node`: the first node with the id, or none. */
    method GetNode(id: string) returns (node: Node?)
      ensures node == WithId(nodes, id)
    {
      for i := 0 to |nodes|
        invariant FirstWithId(nodes[..i], id).None?
      {
        if nodes[i].id == id {
          return nodes[i];
        }
      }
      return null;
    }
  }

  /** The loop of `update_graph` over the nodes. */
  method MoveAll(nodes: seq<Node>, step: seq<Sighting>)
    modifies nodes
    ensures forall n :: n in nodes ==> PoseOf(n) == Moved(old(PoseOf(n)), step, n.id)
    ensures forall n :: n in nodes ==> n.power == old(n.power) && n.tasks == old(n.tasks)
  {
    for i := 0 to |nodes|
      invariant forall j :: 0 <= j < i ==> PoseOf(nodes[j]) == Moved(old(PoseOf(nodes[j])), step, nodes[j].id)
      invariant forall j :: i <= j < |nodes| ==>
                  PoseOf(nodes[j]) == old(PoseOf(nodes[j]))
                  || PoseOf(nodes[j]) == Moved(old(PoseOf(nodes[j])), step, nodes[j].id)
      invariant forall n :: n in nodes ==> n.power == old(n.power) && n.tasks == old(n.tasks)
    {
      MoveNode(nodes[i], step);
    }
  }

  /** One node of the loop: take the pose of its first record, if any. */
  method MoveNode(node: Node, step: seq<Sighting>)
    modifies node`x, node`y, node`angle, node`speed
    ensures PoseOf(node) == Moved(old(PoseOf(node)), step, node.id)
  {
    var found := FindSighting(step, node.id);
    if found.Some? {
      var p := found.value;
      node.x, node.y, node.angle, node.speed := p.x, p.y, p.angle, p.speed;
    }
  }

  /** The generator search of `update_graph`: the first record with the id. */
  method FindSighting(step: seq<Sighting>, id: string) returns (r: Option<Pose>)
    ensures r == FirstSighting(step, id)
  {
    for i := 0 to |step|
      invariant FirstSighting(step, id) == FirstSighting(step[i..], id)
    {
      if step[i].id == id {
        return Some(step[i].pose);
      }
      assert step[i..][1..] == step[i + 1..];
    }
    return None;
  }
}
