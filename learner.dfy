/** The tabular learner of Code/Learner.py and the mean-value variant of Code/LearnerA3C.py:
 *  a `Learner` object owns the Q-table, observes a zone as a `State`, suggests a fog node for
 *  a task and updates the table when the task's result comes back. Every method is proved
 *  against the table functions of module QTable. */
module Learning {
  import opened Wrappers
  import opened LearnerKeys
  import opened QTable
  import Entities
  import Config

  // ---------------------------------------------------------------------------
  // What a zone manager observes (`State.get_fog_nodes_data`, `State.get_task_data`).

  /** One fog node's tuple: x and y on 0..10, speed on 0..3, angle on 0..360, power on 0..20. */
  function FogNodeData(n: Entities.Node): (d: seq<int>)
    reads n`x, n`y, n`speed, n`angle, n`power
    ensures |d| == 5 && forall i :: 0 <= i < 5 ==> 0 <= d[i] <= Config.DiscreteLevels
  {
    [Discretize(n.x, 0.0, 10.0), Discretize(n.y, 0.0, 10.0), Discretize(n.speed, 0.0, 3.0),
     Discretize(n.angle, 0.0, 360.0), Discretize(n.power, 0.0, 20.0)]
  }

  /** The tuples of all the nodes, in order. */
  function FogNodesData(nodes: seq<Entities.Node>): (d: seq<seq<int>>)
    reads nodes
    ensures |d| == |nodes| && forall i :: 0 <= i < |nodes| ==> d[i] == FogNodeData(nodes[i])
    decreases |nodes|
  {
    if |nodes| == 0 then []
    else FogNodesData(nodes[..|nodes| - 1]) + [FogNodeData(nodes[|nodes| - 1])]
  }

  /** The task's tuple: power needed and size on 0..3, deadline on 0..100, then its creator's
   *  x and y on 0..10, speed on 0..3 and angle on 0..360. */
  function TaskData(task: Entities.Task): (d: seq<int>)
    reads task.creator`x, task.creator`y, task.creator`speed, task.creator`angle
    ensures |d| == 7 && forall i :: 0 <= i < 7 ==> 0 <= d[i] <= Config.DiscreteLevels
  {
    [Discretize(task.powerNeeded, 0.0, 3.0), Discretize(task.size, 0.0, 3.0),
     Discretize(task.deadline, 0.0, 100.0), Discretize(task.creator.x, 0.0, 10.0),
     Discretize(task.creator.y, 0.0, 10.0), Discretize(task.creator.speed, 0.0, 3.0),
     Discretize(task.creator.angle, 0.0, 360.0)]
  }

  /** `get_fog_nodes_data`: the nodes' tuples appended one by one. */
  method GetFogNodesData(nodes: seq<Entities.Node>) returns (d: seq<seq<int>>)
    ensures d == FogNodesData(nodes)
  {
    d := [];
    for i := 0 to |nodes|
      invariant d == FogNodesData(nodes[..i])
    {
      assert nodes[..i + 1][..i] == nodes[..i];
      d := d + [FogNodeData(nodes[i])];
    }
    assert nodes[..|nodes|] == nodes;
  }

  /** The snapshot `Action.from_fog_node` takes of each candidate node. */
  function Snapshots(nodes: seq<Entities.Node>): (s: seq<ActionData>)
    reads nodes
    ensures |s| == |nodes| && forall i :: 0 <= i < |nodes| ==> s[i] == nodes[i].Snapshot()
    decreases |nodes|
  {
    if |nodes| == 0 then []
    else Snapshots(nodes[..|nodes| - 1]) + [nodes[|nodes| - 1].Snapshot()]
  }

  // ---------------------------------------------------------------------------
  // The distance loops.

  /** Adding one more tuple to the list matched adds its nearest gap. */
  lemma {:induction false} GapSumSnoc(few: seq<seq<int>>, u: seq<int>, many: seq<seq<int>>)
    requires |many| > 0
    ensures GapSum(few + [u], many) == GapSum(few, many) + NearestGap(u, many)
    decreases |few|
  {
    if |few| == 0 {
      assert ([u])[1..] == [];
    } else {
      assert (few + [u])[1..] == few[1..] + [u];
      GapSumSnoc(few[1..], u, many);
    }
  }

  /** The inner loop of `calculate_distance_of_states`: the smallest squared gap from `u` to
   *  a tuple of `many`, tracked as a running minimum. */
  method SmallestGap(u: seq<int>, many: seq<seq<int>>) returns (best: nat)
    requires |many| > 0
    ensures best == NearestGap(u, many)
  {
    best := SquaredGap(u, many[0]);
    var j := 1;
    while j < |many|
      invariant 1 <= j <= |many|
      invariant forall k :: 0 <= k < j ==> best <= SquaredGap(u, many[k])
      invariant exists k :: 0 <= k < j && best == SquaredGap(u, many[k])
    {
      var gap := SquaredGap(u, many[j]);
      if gap < best {
        best := gap;
      }
      j := j + 1;
    }
    var m := NearestGap(u, many);
    NearestGapIsSmallest(u, many);
    var k :| 0 <= k < |many| && best == SquaredGap(u, many[k]);
    var k' :| 0 <= k' < |many| && m == SquaredGap(u, many[k']);
    assert best <= m && m <= best;
  }

  /** `calculate_distance_of_states`, squared: the state with fewer fog tuples is put first,
   *  each of its tuples is matched to the nearest tuple of the other, and the task tuples are
   *  compared pairwise. */
  method CalculateDistanceOfStates(state1: State, state2: State) returns (d: nat)
    ensures d == StateDistanceSq(state1.data, state2.data)
  {
    var a, b := state1.data, state2.data;
    if |a.fogNodesData| > |b.fogNodesData| {
      a, b := b, a;
    }
    var few, many := a.fogNodesData, b.fogNodesData;
    var sum := 0;
    for i := 0 to |few|
      invariant sum == GapSum(few[..i], many)
    {
      var gap := SmallestGap(few[i], many);
      assert few[..i + 1] == few[..i] + [few[i]];
      GapSumSnoc(few[..i], few[i], many);
      sum := sum + gap;
    }
    assert few[..|few|] == few;
    d := sum + SquaredGap(a.taskData, b.taskData);
  }

  /** The key a lookup of `q` lands on, as an object (null when there is none). */
  function NearestKey(table: seq<Row>, q: StateData): State?
  {
    match NearestState(table, q)
    case Some(k) => table[k].state
    case None => null
  }

  /** The stored action `find_nearest_action` picks (null when there is none). */
  function NearestStoredAction(entries: seq<Entry>, q: ActionData): Action?
  {
    match NearestAction(entries, q)
    case Some(k) => entries[k].action
    case None => null
  }

  /** The scan of `find_nearest_state`: the row kept is replaced only by a strictly closer
   *  one, starting from an infinite distance. */
  method ClosestRow(table: seq<Row>, state: State) returns (best: Option<nat>, bestGap: nat)
    ensures |table| == 0 ==> best.None?
    ensures |table| > 0 ==> best == Some(FirstClosestState(table, state.data, |table|))
                            && bestGap == StateGap(state.data, table[best.value].state)
  {
    best, bestGap := None, 0;
    for j := 0 to |table|
      invariant j == 0 ==> best.None?
      invariant j > 0 ==> best == Some(FirstClosestState(table, state.data, j))
                           && bestGap == StateGap(state.data, table[best.value].state)
    {
      var gap := CalculateDistanceOfStates(state, table[j].state);
      if best.None? || gap < bestGap {
        best, bestGap := Some(j), gap;
      }
    }
  }

  /** With distinct actions, looking an entry's action up finds that entry. */
  lemma ActionIndexOfEntry(es: seq<Entry>, j: nat)
    requires ActionsDistinct(es) && j < |es|
    ensures ActionIndex(es, es[j].action) == Some(j)
  {
  }

  /** The key a state resolves to is stored, and a stored key exists. */
  lemma NearestKeyStored(t: seq<Row>, q: StateData)
    requires NearestState(t, q).Some?
    ensures NearestKey(t, q) != null && KeyIndex(t, NearestKey(t, q)).Some?
    ensures ExistsState(t, NearestKey(t, q).data)
  {
    assert t[NearestState(t, q).value].state == NearestKey(t, q);
    StoredKeyExists(t, NearestKey(t, q));
  }

  /** The key `update_q_table` writes under is stored once both lookups are done. */
  lemma UpdateKeyStored(t: seq<Row>, s: State, a: Action, next: State)
    ensures var t2 := Registered(AfterQValue(t, s, a, false), next);
            KeyIndex(t2, Resolved(t2, s)).Some?
  {
    var t1 := AfterQValue(t, s, a, false);
    AfterQValueKeeps(t, s, a, false);
    var t2 := Registered(t1, next);
    RegisteredHasResolved(t1, next);
    ResolvedStable(t1, t2, s);
    RegisteredHasResolved(t2, s);
  }

  /** The node `get_suggested_assignee` returns when it follows the table: the node of `all`
   *  whose id is that of the best action for `key`, or none. */
  function Suggested(t: seq<Row>, key: State, cands: seq<ActionData>, all: seq<Entities.Node>): Entities.Node?
  {
    match BestEntry(t, key, cands)
    case Some(Some(a)) => Entities.WithId(all, a.id)
    case _ => null
  }

  /** The state built from the nodes and the task. */
  function Observed(nodes: seq<Entities.Node>, task: Entities.Task): StateData
    reads nodes, task.creator
  {
    StateData(FogNodesData(nodes), TaskData(task))
  }

  // ---------------------------------------------------------------------------
  // The learner.

  class Learner {
    /** `q_table`: rows in insertion order, keyed by `State` object. */
    var table: seq<Row>

    /** A new learner starts with an empty table: the simulator runs in offline mode, so
     *  nothing is loaded. */
    constructor ()
      ensures table == []
    {
      table := [];
    }

    /** `find_nearest_state`: the first key at the smallest distance from `state`, within
     *  the threshold. */
    method FindNearestState(state: State) returns (nearest: State?)
      ensures nearest == NearestKey(table, state.data)
    {
      var best, bestGap := ClosestRow(table, state);
      nearest := null;
      if best.Some? && bestGap as real <= StateThresholdSq {
        nearest := table[best.value].state;
      }
    }

    /** `exist_state`: the nearest key is at distance 0. */
    method ExistState(state: State) returns (found: bool)
      ensures found == ExistsState(table, state.data)
    {
      var nearest := FindNearestState(state);
      if nearest == null {
        return false;
      }
      var d := CalculateDistanceOfStates(state, nearest);
      found := d == 0;
    }

    /** `find_nearest_action` on a stored key (the source raises `KeyError` on any other):
     *  the first entry at the smallest non-zero distance, within the threshold. */
    method FindNearestAction(key: State, action: Action) returns (nearest: Action?)
      requires KeyIndex(table, key).Some?
      ensures nearest == NearestStoredAction(EntriesOf(table, key), action.data)
    {
      var es := table[KeyIndex(table, key).value].entries;
      var best: Option<nat> := None;
      var bestGap := 0.0;
      for j := 0 to |es|
        invariant best == FirstClosestAction(es, action.data, j)
        invariant best.Some? ==> bestGap == ActionGap(action.data, es[best.value])
      {
        var gap := ActionDistanceSq(action.data, es[j].action.data);
        if gap != 0.0 && (best.None? || gap < bestGap) {
          best, bestGap := Some(j), gap;
        }
      }
      nearest := null;
      if best.Some? && bestGap <= ActionThresholdSq {
        nearest := es[best.value].action;
      }
    }

    /** The table is a dictionary: each key once, each action once within a row. */
    ghost predicate Valid()
      reads this`table
    {
      WellFormed(table)
    }

    /** `get_q_value(state, action, find_nearest_action)`. */
    method GetQValue(state: State, action: Action, nearest: bool) returns (q: real)
      requires Valid()
      modifies this`table
      ensures Valid()
      ensures q == QValue(old(table), state, action, nearest)
      ensures table == AfterQValue(old(table), state, action, nearest)
    {
      ghost var t := table;
      RegisteredHasResolved(t, state);
      var key := state;
      var found := ExistState(state);
      if !found {
        PutRowWellFormed(table, state, []);
        table := PutRow(table, state, []);
      } else {
        var n := FindNearestState(state);
        key := n;
      }
      assert key == Resolved(t, state) && table == Registered(t, state);
      var es := table[KeyIndex(table, key).value].entries;
      assert es == EntriesOf(table, key);
      if ActionIndex(es, action).None? {
        if nearest {
          var na := FindNearestAction(key, action);
          if na == null {
            return 0.0;
          }
          ActionIndexOfEntry(es, NearestAction(es, action.data).value);
          q := es[ActionIndex(es, na).value].value;
          return;
        } else {
          PutEntryDistinct(es, action, 0.0);
          PutRowWellFormed(table, key, PutEntry(es, action, 0.0));
          table := PutRow(table, key, PutEntry(es, action, 0.0));
          return 0.0;
        }
      }
      q := es[ActionIndex(es, action).value].value;
    }

    /** `get_max_q_value(state)`. */
    method GetMaxQValue(state: State) returns (m: real)
      requires Valid()
      modifies this`table
      ensures Valid()
      ensures m == MaxQValue(old(table), state)
      ensures table == Registered(old(table), state)
    {
      ghost var t := table;
      RegisteredHasResolved(t, state);
      var found := ExistState(state);
      if !found {
        PutRowWellFormed(table, state, []);
        table := PutRow(table, state, []);
        return 0.0;
      }
      var key := FindNearestState(state);
      var es := table[KeyIndex(table, key).value].entries;
      if |es| == 0 {
        return 0.0;
      }
      m := MaxValue(es);
    }

    /** `get_best_q_entry(state, possible_fog_nodes)`: `ok` is false where the source raises
     *  `KeyError`. Each candidate node is turned into a new `Action` and valued with
     *  nearest-action matching; the first of the highest value wins. */
    method GetBestQEntry(state: State, possible: seq<Entities.Node>) returns (best: Action?, ok: bool)
      requires Valid()
      modifies this`table
      ensures Valid()
      ensures table == BestEntryStart(old(table), state).1
      ensures ok == BestEntry(old(table), state, Snapshots(possible)).Some?
      ensures ok ==> (best == null <==> BestEntry(old(table), state, Snapshots(possible)).value.None?)
      ensures ok && best != null ==> best.data == BestEntry(old(table), state, Snapshots(possible)).value.value
    {
      ghost var t := table;
      var key := state;
      var found := ExistState(state);
      if !found {
        var nearest := FindNearestState(state);
        if nearest != null {
          key := nearest;
        } else {
          PutRowWellFormed(table, state, []);
          table := PutRow(table, state, []);
        }
      }
      assert (if KeyIndex(table, key).Some? then Some(key) else None, table) == BestEntryStart(t, state);
      if KeyIndex(table, key).None? {
        return null, false;
      }
      var es := table[KeyIndex(table, key).value].entries;
      if |es| == 0 {
        return null, true;
      }
      ok := true;
      best := ScanCandidates(key, possible);
      if best == null {
        best := es[FirstMax(Values(es), |es|)].action;
      }
    }

    /** The loop of `get_best_q_entry` over the candidate nodes, on a stored key: it keeps
     *  the first new action of strictly highest value, and leaves the table as it was. */
    method ScanCandidates(key: State, possible: seq<Entities.Node>) returns (best: Action?)
      requires Valid() && KeyIndex(table, key).Some?
      modifies this`table
      ensures table == old(table)
      ensures |possible| == 0 <==> best == null
      ensures best != null ==>
                best.data == Snapshots(possible)[FirstMax(CandidateValues(table, key, Snapshots(possible)), |possible|)]
    {
      ghost var cands := Snapshots(possible);
      ghost var vs := CandidateValues(table, key, cands);
      best := null;
      var bestValue := 0.0;
      for i := 0 to |possible|
        invariant table == old(table) && Valid()
        invariant i == 0 <==> best == null
        invariant i > 0 ==> best.data == cands[FirstMax(vs, i)] && bestValue == vs[FirstMax(vs, i)]
      {
        var action, q := ScoreCandidate(key, possible[i]);
        assert cands[i] == action.data && vs[i] == q;
        if i > 0 { FirstMaxStep(vs, i); }
        if best == null || q > bestValue {
          best, bestValue := action, q;
        }
      }
      assert cands == Snapshots(possible);
    }

    /** One candidate of the scan: a new action for the node's snapshot, read with the
     *  nearest-match rule, which on a stored key finds no equal action and so neither
     *  changes the table nor reads anything but the fresh value. */
    method ScoreCandidate(key: State, node: Entities.Node) returns (action: Action, q: real)
      requires Valid() && KeyIndex(table, key).Some?
      modifies this`table
      ensures Valid() && table == old(table)
      ensures action.data == node.Snapshot() && q == FreshValue(table, key, node.Snapshot())
    {
      action := new Action(node.Snapshot());
      assert forall e :: e in EntriesOf(table, Resolved(table, key)) ==> e.action != action;
      FreshValueIsQValue(table, key, action);
      q := GetQValue(key, action, true);
    }

    /** `get_node_by_id`: the first node with the id, or none. */
    method GetNodeById(id: string, all: seq<Entities.Node>) returns (node: Entities.Node?)
      ensures node == Entities.WithId(all, id)
    {
      for i := 0 to |all|
        invariant Entities.FirstWithId(all[..i], id).None?
      {
        if all[i].id == id {
          return all[i];
        }
      }
      return null;
    }

    /** `get_from_fog_nodes_and_task`: a new state object, or the stored key it matches at
     *  distance 0. */
    method GetFromFogNodesAndTask(nodes: seq<Entities.Node>, task: Entities.Task) returns (state: State)
      ensures ExistsState(table, old(Observed(nodes, task))) ==> state == NearestKey(table, old(Observed(nodes, task)))
      ensures !ExistsState(table, old(Observed(nodes, task))) ==> fresh(state) && state.data == old(Observed(nodes, task))
    {
      var fog := GetFogNodesData(nodes);
      state := new State(StateData(fog, TaskData(task)));
      var found := ExistState(state);
      if found {
        var n := FindNearestState(state);
        state := n;
      }
    }

    /** `get_suggested_assignee`. The random draws are parameters: `roll` is `random.random()`
     *  and `choice` the index `random.choice` picks. An unseen state is registered with no
     *  entries. Exploring returns the chosen candidate; otherwise the table's best action is
     *  mapped back to a node by id, and an unseen state gives no suggestion. The lookup of
     *  the best action never raises here. */
    method GetSuggestedAssignee(all: seq<Entities.Node>, possible: seq<Entities.Node>, task: Entities.Task,
                                roll: real, choice: nat) returns (assignee: Entities.Node?)
      requires Valid()
      requires |possible| == 0 || choice < |possible|
      modifies this`table
      ensures Valid()
      ensures |possible| == 0 ==> assignee == null && table == old(table)
      ensures |possible| > 0 && roll < Epsilon ==> assignee == possible[choice]
      ensures |possible| > 0 && !ExistsState(old(table), Observed(all, task)) ==>
                |table| == |old(table)| + 1 && table[..|old(table)|] == old(table)
                && table[|old(table)|].state.data == Observed(all, task) && table[|old(table)|].entries == []
                && (roll >= Epsilon ==> assignee == null)
      ensures |possible| > 0 && ExistsState(old(table), Observed(all, task)) ==>
                table == old(table)
                && (roll >= Epsilon ==>
                      assignee == Suggested(old(table), NearestKey(old(table), Observed(all, task)),
                                            Snapshots(possible), all))
    {
      if |possible| == 0 {
        return null;
      }
      ghost var d := Observed(all, task);
      var state := ObserveAndRegister(all, task);
      assert Observed(all, task) == d;
      if Epsilon > 0.0 && roll < Epsilon {
        return possible[choice];
      }
      assignee := SuggestFromTable(state, all, possible);
    }

    /** The rest of `get_suggested_assignee` when it follows the table, on a stored key: the
     *  best entry for the key (which cannot raise) mapped back to a node by id. */
    method SuggestFromTable(state: State, all: seq<Entities.Node>, possible: seq<Entities.Node>)
      returns (assignee: Entities.Node?)
      requires Valid() && KeyIndex(table, state).Some?
      modifies this`table
      ensures table == old(table)
      ensures assignee == Suggested(table, state, Snapshots(possible), all)
      ensures |EntriesOf(table, state)| == 0 ==> assignee == null
    {
      BestEntryOnStoredKey(table, state, Snapshots(possible));
      var best, ok := GetBestQEntry(state, possible);
      assert ok;
      if best == null {
        return null;
      }
      assignee := GetNodeById(best.data.id, all);
    }

    /** The first steps of `get_suggested_assignee`: observe the zone and register the state
     *  when it is unseen. The state returned is always a stored key. */
    method ObserveAndRegister(all: seq<Entities.Node>, task: Entities.Task) returns (state: State)
      requires Valid()
      modifies this`table
      ensures Valid() && KeyIndex(table, state).Some?
      ensures ExistsState(old(table), Observed(all, task)) ==>
                table == old(table) && state == NearestKey(old(table), Observed(all, task))
      ensures !ExistsState(old(table), Observed(all, task)) ==>
                fresh(state) && state.data == Observed(all, task) && table == old(table) + [Row(state, [])]
                && EntriesOf(table, state) == []
    {
      ghost var t := table;
      ghost var d := Observed(all, task);
      state := GetFromFogNodesAndTask(all, task);
      if ExistsState(t, d) {
        NearestKeyStored(t, d);
      }
      var found := ExistState(state);
      assert found == ExistsState(t, d);
      if !found {
        assert KeyIndex(table, state).None?;
        PutRowLookup(table, state, []);
        PutRowWellFormed(table, state, []);
        table := PutRow(table, state, []);
      }
      assert Observed(all, task) == d;
    }

    /** `update_q_table`: the Q-learning step. */
    method UpdateQTable(state: State, action: Action, reward: int, next: State)
      requires Valid()
      modifies this`table
      ensures Valid()
      ensures table == QLearningUpdate(old(table), state, action, reward, next)
    {
      ghost var t := table;
      var q := GetQValue(state, action, false);
      var m := GetMaxQValue(next);
      var v := QLearningStep(q, reward as real, m);
      var key := ResolveKey(state);
      UpdateKeyStored(t, state, action, next);
      WriteEntry(key, action, v);
    }

    /** `if exist_state(state): state = find_nearest_state(state)`. */
    method ResolveKey(state: State) returns (key: State)
      ensures key == Resolved(table, state)
    {
      key := state;
      var found := ExistState(state);
      if found {
        var n := FindNearestState(state);
        key := n;
      }
    }

    /** `q_table[key][action] = v` on a stored key. */
    method WriteEntry(key: State, action: Action, v: real)
      requires Valid() && KeyIndex(table, key).Some?
      modifies this`table
      ensures Valid()
      ensures table == PutRow(old(table), key, PutEntry(EntriesOf(old(table), key), action, v))
    {
      var es := table[KeyIndex(table, key).value].entries;
      PutEntryDistinct(es, action, v);
      PutRowWellFormed(table, key, PutEntry(es, action, v));
      table := PutRow(table, key, PutEntry(es, action, v));
    }

    /** `update_q_table_by_finished_task`: the update for the state the task was placed in and
     *  the action recorded on it. Both are set by the time a placed task finishes. */
    method UpdateQTableByFinishedTask(task: Entities.Task, next: State, reward: int)
      requires Valid()
      requires task.creationState != null && task.assignedAction != null
      modifies this`table
      ensures Valid()
      ensures table == QLearningUpdate(old(table), task.creationState, task.assignedAction, reward, next)
    {
      UpdateQTable(task.creationState, task.assignedAction, reward, next);
    }

    /** `LearnerA3C.get_state_value`: `ok` is false where the source divides by zero. */
    method GetStateValue(state: State) returns (value: real, ok: bool)
      ensures ok == StateValue(table, state).Some?
      ensures ok ==> value == StateValue(table, state).value
    {
      if KeyIndex(table, state).None? {
        return 0.0, true;
      }
      var es := table[KeyIndex(table, state).value].entries;
      var sum := 0.0;
      for j := 0 to |es|
        invariant sum == ValueSum(es[..j])
      {
        assert es[..j + 1][..j] == es[..j];
        sum := sum + es[j].value;
      }
      assert es[..|es|] == es;
      if |es| == 0 {
        return 0.0, false;
      }
      value, ok := sum / (|es| as real), true;
    }

    /** `LearnerA3C.update_q_table`: the mean-value step, written under the object `state`
     *  itself. `ok` is false where the source raises; the table then holds what the lookup
     *  of Q(s, a) left. */
    method UpdateQTableMeanValue(state: State, action: Action, reward: int, next: State) returns (ok: bool)
      requires Valid()
      modifies this`table
      ensures Valid()
      ensures ok == MeanValueUpdate(old(table), state, action, reward, next).Some?
      ensures ok ==> table == MeanValueUpdate(old(table), state, action, reward, next).value
      ensures !ok ==> table == AfterQValue(old(table), state, action, true)
    {
      var q := GetQValue(state, action, true);
      var value, valueOk := GetStateValue(next);
      if !valueOk {
        return false;
      }
      var v := MeanValueStep(q, reward as real, value);
      if KeyIndex(table, state).None? {
        return false;
      }
      WriteEntry(state, action, v);
      ok := true;
    }
  }
}
