/** Nodes and tasks (Code/Node.py, Code/Task.py). A node is any computing resource (a user
 *  device, a fog node or the cloud); a task is a unit of work a user node creates and some
 *  fog or cloud node runs.
 *
 *  Distances are never square-rooted: every place that compares a Euclidean distance compares
 *  its square instead, and the lemmas `WithinRadiusExact` and `FitsBudgetExact` show that
 *  each squared test decides exactly like the source's test on the root. */
module Entities {
  import opened Wrappers
  import Config
  import LearnerKeys
  import Metrics
  import opened Lists

  datatype Layer = Users | Fog | Cloud

  // ---------------------------------------------------------------------------
  // Geometry.

  /** Square of `math.sqrt((x1 - x2) ** 2 + (y1 - y2) ** 2)`. */
  function DistSq(x1: real, y1: real, x2: real, y2: real): (d: real)
    ensures d >= 0.0
    ensures x1 == x2 && y1 == y2 ==> d == 0.0
  {
    (x1 - x2) * (x1 - x2) + (y1 - y2) * (y1 - y2)
  }

  lemma DistSqSymmetric(x1: real, y1: real, x2: real, y2: real)
    ensures DistSq(x1, y1, x2, y2) == DistSq(x2, y2, x1, y1)
  {
  }

  /** `distance <= radius` on the square of the distance. A negative radius covers nothing. */
  predicate WithinRadius(dsq: real, radius: real)
  {
    0.0 <= radius && dsq <= radius * radius
  }

  /** The squared coverage test decides exactly like the test on the distance itself. */
  lemma WithinRadiusExact(d: real, dsq: real, radius: real)
    requires d >= 0.0 && d * d == dsq
    ensures WithinRadius(dsq, radius) <==> d <= radius
  {
    if radius >= 0.0 {
      LearnerKeys.SqrtAtMost(d, dsq, radius);
    }
  }

  // ---------------------------------------------------------------------------
  // Execution time.

  /** Seconds per metre of distance: the task travels there and back, the result once. */
  const TravelCostPerMeter: real := Config.TaskCostPerMeter * 2.0 + Config.PacketCostPerMeter

  /** The part of the execution time that does not depend on distance. */
  function Overhead(execTime: real, isCloud: bool, isMigrated: bool): real
  {
    execTime + (if isCloud then Config.CloudProcessingOverhead else 0.0)
      + (if isMigrated then Config.MigrationOverhead else 0.0)
  }

  /** `Node.get_exec_time`: time to run a task of base time `execTime` at `distance` metres. */
  function ExecTime(distance: real, execTime: real, isCloud: bool, isMigrated: bool): (t: real)
    ensures distance >= 0.0 ==> t >= execTime
  {
    var base := if isCloud then execTime + Config.CloudProcessingOverhead else execTime;
    var taken := base + Config.TaskCostPerMeter * distance * 2.0 + Config.PacketCostPerMeter * distance;
    if isMigrated then taken + Config.MigrationOverhead else taken
  }

  /** The execution time is the fixed overhead plus a cost proportional to the distance. */
  lemma ExecTimeLinear(distance: real, execTime: real, isCloud: bool, isMigrated: bool)
    ensures ExecTime(distance, execTime, isCloud, isMigrated)
         == Overhead(execTime, isCloud, isMigrated) + TravelCostPerMeter * distance
  {
  }

  lemma ExecTimeMonotone(d1: real, d2: real, execTime: real, isCloud: bool, isMigrated: bool)
    requires d1 <= d2
    ensures ExecTime(d1, execTime, isCloud, isMigrated) <= ExecTime(d2, execTime, isCloud, isMigrated)
  {
  }

  /** `get_exec_time(distance, ...) <= budget`, decided on the squared distance: the
   *  distance must not exceed the reach the budget leaves after the fixed overhead. */
  predicate FitsBudget(dsq: real, execTime: real, isCloud: bool, isMigrated: bool, budget: real)
  {
    var reach := (budget - Overhead(execTime, isCloud, isMigrated)) / TravelCostPerMeter;
    0.0 <= reach && dsq <= reach * reach
  }

  lemma FitsBudgetExact(d: real, dsq: real, execTime: real, isCloud: bool, isMigrated: bool, budget: real)
    requires d >= 0.0 && d * d == dsq
    ensures FitsBudget(dsq, execTime, isCloud, isMigrated, budget)
        <==> ExecTime(d, execTime, isCloud, isMigrated) <= budget
  {
    ExecTimeLinear(d, execTime, isCloud, isMigrated);
    var reach := (budget - Overhead(execTime, isCloud, isMigrated)) / TravelCostPerMeter;
    assert ExecTime(d, execTime, isCloud, isMigrated) <= budget <==> d <= reach;
    if reach >= 0.0 {
      LearnerKeys.SqrtAtMost(d, dsq, reach);
    }
  }

  /** `not_enough_time`: the execution time strictly exceeds the task's slack, so a time
   *  exactly equal to the slack is still feasible. */
  predicate NotEnoughTime(dsq: real, execTime: real, slack: real, isCloud: bool, isMigrated: bool)
  {
    !FitsBudget(dsq, execTime, isCloud, isMigrated, slack)
  }

  lemma NotEnoughTimeExact(d: real, dsq: real, execTime: real, slack: real, isCloud: bool, isMigrated: bool)
    requires d >= 0.0 && d * d == dsq
    ensures NotEnoughTime(dsq, execTime, slack, isCloud, isMigrated)
        <==> ExecTime(d, execTime, isCloud, isMigrated) > slack
  {
    FitsBudgetExact(d, dsq, execTime, isCloud, isMigrated, slack);
  }

  /** `Task.get_exec_time`: base execution time of a task of `size` at frequency `neededFreq`. */
  function TaskExecTime(size: real, neededFreq: real): (t: real)
    requires neededFreq != 0.0
    ensures t * neededFreq == size
  {
    size / neededFreq
  }

  lemma StillFactor(speed: real, dt: real, c: real)
    requires speed == 0.0 || dt == 0.0
    ensures speed * dt * c == 0.0
  {
    if speed == 0.0 {
      assert speed * dt == 0.0;
    } else {
      assert speed * dt == 0.0;
    }
  }

  /** The frequency every task is created with. */
  const DefaultNeededFreq: real := 2.0

  /** What `Task.set_result` stores when a node finishes a task. */
  const FinishedResult: string := "Random Result"

  // ---------------------------------------------------------------------------
  // Nodes.

  class Node {
    const id: string
    const layer: Layer
    const coverageRadius: real
    var power: real
    var x: real
    var y: real
    var speed: real
    var angle: real
    var tasks: seq<Task>

    constructor (id: string, layer: Layer, power: real, x: real, y: real, coverageRadius: real,
                 speed: real, angle: real)
      ensures this.id == id && this.layer == layer && this.power == power
      ensures this.x == x && this.y == y && this.coverageRadius == coverageRadius
      ensures this.speed == speed && this.angle == angle && tasks == []
    {
      this.id, this.layer, this.power := id, layer, power;
      this.x, this.y, this.coverageRadius := x, y, coverageRadius;
      this.speed, this.angle := speed, angle;
      tasks := [];
    }

    /** Square of `distance_by_x_y(px, py)`. */
    function DistSqTo(px: real, py: real): (d: real)
      reads this`x, this`y
      ensures d >= 0.0
    {
      DistSq(x, y, px, py)
    }

    /** `is_in_range`: the point lies within the coverage radius, boundary included. */
    predicate InRange(px: real, py: real)
      reads this`x, this`y
    {
      WithinRadius(DistSqTo(px, py), coverageRadius)
    }

    /** `get_pred_x_y`, with the cosine and sine of the heading given (the trigonometry is
     *  outside the model). A node that does not move, or no elapsed time, stays put. */
    function PredXY(dt: real, cosAngle: real, sinAngle: real): (p: (real, real))
      reads this`x, this`y, this`speed
      ensures speed == 0.0 || dt == 0.0 ==> p == (x, y)
    {
      var dx, dy := speed * dt * cosAngle, speed * dt * sinAngle;
      if speed == 0.0 || dt == 0.0 then
        StillFactor(speed, dt, cosAngle);
        StillFactor(speed, dt, sinAngle);
        assert dx == 0.0 && dy == 0.0;
        (x + dx, y + dy)
      else
        (x + dx, y + dy)
    }

    /** The state `append_task` builds its `Action` from (the node's attributes before the
     *  task's power is taken). */
    function Snapshot(): (a: LearnerKeys.ActionData)
      reads this`x, this`y, this`speed, this`angle, this`power
      ensures a.id == id && a.power == power
    {
      LearnerKeys.ActionData(id, x, y, speed, angle, power)
    }

    /** `append_task`: count the task for this node, record this node and a snapshot of it on
     *  the task, append the task and take its power. There is no capacity check. */
    method AppendTask(task: Task, ev: Metrics.Evaluator)
      requires ev.Valid()
      modifies this`tasks, this`power, task`assignedNode, task`assignedAction, ev
      ensures tasks == old(tasks) + [task]
      ensures power == old(power) - task.powerNeeded
      ensures task.assignedNode == this && task.assignedAction != null && fresh(task.assignedAction)
      ensures task.assignedAction.data == old(Snapshot())
      ensures ev.Valid() && ev.countedIds == old(ev.countedIds) + [id]
      ensures ev.Snapshot() == old(ev.Snapshot()).(fogNodeTaskCounts := old(ev.fogNodeTaskCounts)[id :=
                (if id in old(ev.fogNodeTaskCounts) then old(ev.fogNodeTaskCounts)[id] else 0) + 1])
    {
      ev.UpdateTaskCount(id);
      var action := new LearnerKeys.Action(Snapshot());
      task.SetAssignee(this, action);
      tasks := tasks + [task];
      power := power - task.powerNeeded;
    }

    /** `remove_task`: drop the first occurrence of the task and give its power back. The
     *  source raises when the task is absent, so callers only remove tasks the node holds. */
    method RemoveTask(task: Task)
      requires task in tasks
      modifies this`tasks, this`power
      ensures tasks == RemoveFirst(old(tasks), task)
      ensures |tasks| == |old(tasks)| - 1
      ensures power == old(power) + task.powerNeeded
    {
      tasks := RemoveFirst(tasks, task);
      power := power + task.powerNeeded;
    }

    /** `is_done`: the task has had its execution time since it was created, the time taken
     *  at the node's current distance from the task's creator; a finished task gets its result. */
    method IsDone(task: Task, clock: Metrics.Clock) returns (done: bool)
      modifies task`result
      ensures done == Completed(this, task, clock)
      ensures task.result == (if done then Some(FinishedResult) else old(task.result))
    {
      done := Completed(this, task, clock);
      if done {
        task.SetResult(FinishedResult);
      }
    }

    /** `deliver_task_result`: decide whether the deadline was missed, detach the task from its
     *  node and count the miss. */
    method DeliverTaskResult(task: Task, clock: Metrics.Clock, ev: Metrics.Evaluator)
      requires ev.Valid()
      modifies task`isDeadlineMissed, task`assignedNode, ev
      ensures task.isDeadlineMissed == (clock.time > task.deadline)
      ensures task.assignedNode == null
      ensures ev.Valid() && ev.countedIds == old(ev.countedIds)
      ensures ev.Snapshot() == if task.isDeadlineMissed then old(ev.Snapshot()).(
                deadlineMisses := old(ev.deadlineMisses) + 1,
                currentStepDeadlineMisses := old(ev.currentStepDeadlineMisses) + 1)
              else old(ev.Snapshot())
    {
      var _ := task.CheckDeadlineMissed(clock);
      task.RemoveAssignee();
      if task.isDeadlineMissed {
        ev.IncrementDeadlineMisses();
      }
    }

    /** `generate_task`: a new task created by this node, counted in the run's total. */
    method GenerateTask(name: string, powerNeeded: real, size: real, deadline: real, creationTime: real,
                        ev: Metrics.Evaluator) returns (task: Task)
      requires ev.Valid()
      modifies ev
      ensures fresh(task) && task.creator == this && task.name == name
      ensures task.powerNeeded == powerNeeded && task.size == size && task.deadline == deadline
      ensures task.creationTime == creationTime && task.deadlineDuration == deadline - creationTime
      ensures task.execTime * DefaultNeededFreq == size
      ensures task.Unassigned()
      ensures ev.Valid() && ev.countedIds == old(ev.countedIds)
      ensures ev.Snapshot() == old(ev.Snapshot()).(totalTasks := old(ev.totalTasks) + 1)
    {
      task := new Task(powerNeeded, name, size, deadline, this, creationTime);
      ev.CountGeneratedTask();
    }
  }

  /** The test of `is_done`: the clock has reached the task's creation time plus the time the
   *  node needs at its current distance from the task's creator (cloud overhead on the cloud,
   *  migration overhead for a migrated task). */
  predicate Completed(node: Node, task: Task, clock: Metrics.Clock)
    reads node`x, node`y, task`creationTime, task`isMigrated, task.creator`x, task.creator`y, clock`time
  {
    FitsBudget(node.DistSqTo(task.creator.x, task.creator.y), task.execTime, node.layer == Cloud,
               task.isMigrated, clock.time - task.creationTime)
  }

  /** `Completed` is the source's test `Clock.time >= creation_time + get_exec_time(distance, ...)`
   *  for the true distance. */
  lemma CompletedExact(node: Node, task: Task, clock: Metrics.Clock, d: real)
    requires d >= 0.0 && d * d == node.DistSqTo(task.creator.x, task.creator.y)
    ensures Completed(node, task, clock)
        <==> clock.time >= task.creationTime + ExecTime(d, task.execTime, node.layer == Cloud, task.isMigrated)
  {
    FitsBudgetExact(d, node.DistSqTo(task.creator.x, task.creator.y), task.execTime, node.layer == Cloud,
                    task.isMigrated, clock.time - task.creationTime);
  }

  // ---------------------------------------------------------------------------
  // Tasks.

  class Task {
    const powerNeeded: real
    const name: string
    const deadline: real
    const execTime: real
    const size: real
    const creator: Node
    /** Slack between creation and deadline, fixed when the task is built: moving
     *  `creationTime` later (a re-queued task) does not change it. */
    const deadlineDuration: real
    var creationTime: real
    var assignedAction: LearnerKeys.Action?
    var assignedNode: Node?
    var result: Option<string>
    var creationState: LearnerKeys.State?
    var isMigrated: bool
    var isDeadlineMissed: bool

    /** Not placed, not run, not observed by a learner, no flag raised. */
    predicate Unassigned()
      reads this
    {
      assignedAction == null && assignedNode == null && result == None && creationState == null
      && !isMigrated && !isDeadlineMissed
    }

    constructor (powerNeeded: real, name: string, size: real, deadline: real, creator: Node, creationTime: real)
      ensures this.powerNeeded == powerNeeded && this.name == name && this.size == size
      ensures this.deadline == deadline && this.creator == creator && this.creationTime == creationTime
      ensures execTime == TaskExecTime(size, DefaultNeededFreq)
      ensures deadlineDuration == deadline - creationTime
      ensures Unassigned()
    {
      this.powerNeeded, this.name, this.deadline := powerNeeded, name, deadline;
      execTime := TaskExecTime(size, DefaultNeededFreq);
      this.size, this.creationTime, this.creator := size, creationTime, creator;
      assignedAction, assignedNode, result := null, null, None;
      deadlineDuration := deadline - creationTime;
      creationState := null;
      isMigrated, isDeadlineMissed := false, false;
    }

    method SetCreationState(state: LearnerKeys.State)
      modifies this`creationState
      ensures creationState == state
    {
      creationState := state;
    }

    method SetResult(r: string)
      modifies this`result
      ensures result == Some(r)
    {
      result := Some(r);
    }

    method GetResult() returns (r: Option<string>)
      ensures r == result
    {
      r := result;
    }

    /** `set_assignee`: both the node and the action are recorded. */
    method SetAssignee(node: Node, action: LearnerKeys.Action)
      modifies this`assignedNode, this`assignedAction
      ensures assignedNode == node && assignedAction == action
    {
      assignedNode, assignedAction := node, action;
    }

    /** `remove_assignee`: the node is cleared, the action is kept. */
    method RemoveAssignee()
      modifies this`assignedNode
      ensures assignedNode == null
    {
      assignedNode := null;
    }

    /** `check_deadline_missed`: the strict test `Clock.time > deadline`, stored and returned.
     *  It depends only on the clock, so two calls at the same time agree. */
    method CheckDeadlineMissed(clock: Metrics.Clock) returns (missed: bool)
      modifies this`isDeadlineMissed
      ensures missed == (clock.time > deadline) && isDeadlineMissed == missed
    {
      isDeadlineMissed := clock.time > deadline;
      missed := isDeadlineMissed;
    }
  }

  // ---------------------------------------------------------------------------
  // Lists of nodes.

  /** The first node with the given id (`get_node_by_id`, `Graph.get_node`). */
  function FirstWithId(nodes: seq<Node>, id: string): (r: Option<nat>)
    ensures r.Some? ==> r.value < |nodes| && nodes[r.value].id == id
                        && forall j :: 0 <= j < r.value ==> nodes[j].id != id
    ensures r.None? ==> forall j :: 0 <= j < |nodes| ==> nodes[j].id != id
  {
    if |nodes| == 0 then None
    else if nodes[0].id == id then Some(0)
    else match FirstWithId(nodes[1..], id)
      case Some(k) => Some(k + 1)
      case None => None
  }

  /** The first node with the given id, or `None` (null) when there is none. */
  function WithId(nodes: seq<Node>, id: string): (n: Node?)
    ensures n != null ==> n in nodes && n.id == id
    ensures n != null ==> exists k :: 0 <= k < |nodes| && nodes[k] == n
                                      && forall j :: 0 <= j < k ==> nodes[j].id != id
    ensures n == null <==> forall j :: 0 <= j < |nodes| ==> nodes[j].id != id
  {
    match FirstWithId(nodes, id)
    case Some(k) => nodes[k]
    case None => null
  }
}
