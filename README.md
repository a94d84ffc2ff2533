# Fog offloading simulator: placement and migration engine in Dafny

This project models the placement and migration engine of a mobile fog/cloud
offloading simulator. Users, moving fog nodes (cars), fixed fog nodes and one
cloud node move on a mobility trace, one time step at a time. Users generate
tasks, and the topology broadcasts each task to the zone managers that cover the
user. Each zone asks its strategy for a fog node: random, distance heuristic,
Q-learning or A3C mean-value learning. The topology accepts the nearest offer
that is close enough compared with the cloud. Failing that it tries the cloud,
and failing that it queues the task. Every step, each zone releases finished
tasks and sends the result back to the owner. When the owner has left the zone,
the result goes through the nearest zone, which counts as a migration. The zone
then re-zones the fog nodes that have driven out of its coverage. The Q-learning
learner keeps a Q-table keyed by discretised state objects. It looks up states
and actions by nearest distance and updates values with the Q-learning rule
(or the mean-value rule for A3C). The table can be saved to and loaded from a
text form.

Modules, one per file:

- `Config` (`config.dfy`): the simulator's constants.
- `Wrappers` (`wrappers.dfy`): `Option`.
- `Entities` (`entities.dfy`): the `Node` and `Task` classes, execution time
  and distance.
- `Metrics` (`metrics.dfy`): the clock and the `Evaluator` counters, with an
  invariant tying every total to the per-step history.
- `Mobility` (`mobility.dfy`): `MobilityGraph.UpdateGraph` and the layer
  queries.
- `Lists` (`lists.dfy`):
  - Python's `list.remove`;
  - the index-advancing walk that removes entries from a list while iterating
    over it;
  - first-minimum scans.
- `PyText` (`pytext.dfy`): the `str.find`, `str.replace`, `str.split`, `int()`
  and `float()` behaviour that the key parsers rely on.
- `LearnerKeys`, `QTable`, `Learning` (`learner_keys.dfy`, `qtable.dfy`,
  `learner.dfy`):
  - `State` and `Action`;
  - discretisation;
  - the state and action distances;
  - the Q-table as an ordered identity-keyed dictionary;
  - the `Learner` class, including the A3C mean-value variant.
- `KeyText`, `QTableText` (`key_text.dfy`, `qtable_text.dfy`): the text forms
  of `State` and `Action`, and how `convert_q_table` and `load_q_table` filter
  a table.
- `Broadcasting` (`broadcaster.dfy`): `ZoneBroadcaster`.
- `Zones` (`zones.dfy`): one `Zone` class whose `strategy` field selects the
  Random, Heuristic, Q-learning or A3C zone manager, plus the topology's
  nearest-zone and zone-joining helpers.
- `Orchestration` (`topology.dfy`): the `Topology` class, covering task
  assignment, the task queue, cloud release and the per-step update.

Modelling conventions:

- Floats are `real`, and discretised tuples are `seq<int>`.
- Distances are compared as squares. The exactness lemmas
  (`Entities.WithinRadiusExact`, `Entities.FitsBudgetExact`,
  `Orchestration.ThresholdExact`, `Zones.Zone.IsWithinCoverageExact`,
  `LearnerKeys.SqrtAtMost`) show that each squared test agrees with the
  original test on the square root.
- Random draws, `cos`/`sin` of the heading and the heuristic's route cost are
  parameters. In the topology they are bundled in a `Draw` value.
- A Python exception is modelled as an `ok: bool` result or a `Failed`
  outcome. An `IndexError`, an `AttributeError` on `None`, a `KeyError` and a
  division by zero become this failure result. The model then stops where the
  program would stop.
- `State` and `Action` are classes with an immutable `data` field. Python
  dictionaries hash them by identity, so the Q-table compares keys by
  reference, as the program does.

Behaviour of the program that the model reproduces as written:

- Topology: an offer that is farther than half the cloud distance breaks the
  offer loop while offers remain. The task is then neither placed nor queued
  (placement `Dropped`, `Code/Topology.py:91-94`).
- Topology: the cloud admits a task only when `not_enough_time` is TRUE, since
  the condition is not negated (`Code/Topology.py:97-98`, `Code/Topology.py:149-150`).
  `Orchestration.CloudAdmits` reproduces this.
- Heuristic zone: its possible nodes are all members, with no power, range or
  time check (`Code/ZoneManagerHeuristic.py:47-49`). Accepting an offer can
  therefore drive a node's power negative.
- A3C zone: `accept_offer` and `send_task_result_to_owner` call a `get_state`
  that refers to a missing attribute. After the node has been appended, the
  model returns `ok == false`.
- Releasing finished tasks and re-zoning both remove from a list while
  iterating over it. The element that follows a removed one is skipped
  (`Lists.WalkSkipsSuccessor`).
- `process_task_queue` loops over the length measured BEFORE the overflow
  eviction (`Code/Topology.py:133-143`). After evicting the excess over 20 it
  still pops that full length. A retry that queues its task again puts it back
  at the end (`Code/Topology.py:103`). The loop therefore fails on an empty
  deque only when too few retries were queued again to keep it from running
  dry.
- The migration overhead enters `get_exec_time` only through `is_migrated`.
  That flag is set when the result is routed back, after the task finished.

## Model

| member | source | states |
|---|---|---|
| Entities.DistSq | Code/Node.py:85-86 | The squared Euclidean distance is never negative and is zero from a point to itself |
| Entities.DistSqSymmetric | Code/Node.py:73-86 | Distance from a to b equals distance from b to a |
| Entities.WithinRadiusExact | Code/Node.py:114-115 | The squared range test holds exactly when the distance is at most the coverage radius (inclusive) |
| Entities.ExecTime | Code/Node.py:148-159 | For a non-negative distance, the completion time is never below the task's own execution time |
| Entities.ExecTimeLinear | Code/Node.py:148-159 | Completion time is the task time, plus 0.5 for the cloud, plus 0.01 when migrated, plus 0.011 per unit of distance |
| Entities.ExecTimeMonotone | Code/Node.py:148-159 | A farther node never finishes earlier |
| Entities.FitsBudgetExact | Code/Node.py:148-159 | The squared-distance budget test is equivalent to "execution time at the real distance is within the budget" |
| Entities.NotEnoughTimeExact | Code/ZoneManagerBase.py:34-37 | "Not enough time" holds exactly when the completion time strictly exceeds deadline minus creation time |
| Entities.TaskExecTime | Code/Task.py:11-12 | A task's execution time multiplied by the needed frequency gives back its size |
| Entities.Node.constructor | Code/Node.py:45-68 | A new node has the given id, layer, power, position, radius, speed and angle, and an empty task list |
| Entities.Node.DistSqTo | Code/Node.py:85-86 | The squared distance from the node to a point is never negative |
| Entities.Node.PredXY | Code/Node.py:143-146 | A still node, or a zero horizon, predicts the current position |
| Entities.Node.Snapshot | Code/Learner.py:111-112 | An action made from a node carries that node's id and its current power |
| Entities.Node.AppendTask | Code/Node.py:96-100 | Task appended at the end, power reduced by the need, assignee and action set on the task, task counted for the node id |
| Entities.Node.RemoveTask | Code/Node.py:139-141 | The first occurrence of the task leaves the list, nothing else moves, and its power is given back |
| Entities.Node.IsDone | Code/Node.py:130-137 | Reports done exactly when creation time plus completion time has been reached, and stores the result only then |
| Entities.CompletedExact | Code/Node.py:130-137 | The squared-distance completion test agrees with the test on the real completion time |
| Entities.Node.DeliverTaskResult | Code/Node.py:120-128 | The miss flag equals "clock past the deadline", the assignee is cleared, and one miss is counted exactly when missed |
| Entities.Node.GenerateTask | Code/Node.py:102-112 | A fresh unassigned task is created at the clock with the given data, and the generated-task total rises by one |
| Entities.Task.constructor | Code/Task.py:16-29 | A new task has the given data, no assignee, no state, no result and no migration or miss flag |
| Entities.Task.SetCreationState | Code/Task.py:32-33 | Only the creation state changes |
| Entities.Task.SetResult | Code/Task.py:35-36 | Only the result changes |
| Entities.Task.GetResult | Code/Task.py:38-39 | Returns the stored result |
| Entities.Task.SetAssignee | Code/Task.py:41-43 | Only the assignee and the action change |
| Entities.Task.RemoveAssignee | Code/Task.py:45-46 | Clears the assignee and leaves the action in place |
| Entities.Task.CheckDeadlineMissed | Code/Task.py:48-50 | The miss flag becomes "clock past the deadline" |
| Entities.WithId | Code/Graph.py:108-112 | Returns the first node carrying the id, or null exactly when no node carries it |
| Lists.RemoveFirst | Code/Node.py:139-141 | Removing a present element shortens the list by one; an absent element leaves it unchanged |
| Lists.RemoveFirstMultiset | Code/Node.py:139-141 | Removal takes exactly one copy out of the multiset |
| Lists.AppendThenRemove | Code/Node.py:96-141 | Appending a task that is not yet held and then removing it restores the list |
| Lists.AppendThenRemoveDuplicate | Code/Node.py:139-141 | When the task was already held, remove takes the earlier copy: [1,2]+[1] becomes [2,1] |
| Lists.WalkPartitions | Code/ZoneManagerBase.py:83-103 | The removing walk splits the list into its survivors and its removed elements, with nothing lost |
| Lists.WalkWithoutAdjacentMarks | Code/ZoneManagerBase.py:83-103 | When no two adjacent elements are marked, the walk removes exactly the marked elements |
| Lists.UnmarkedSurvive | Code/ZoneManagerBase.py:83-103 | An unmarked element is never removed |
| Lists.WalkSkipsSuccessor | Code/ZoneManagerBase.py:83-103 | Witness: with [1,2,3] and marks [T,T,F], element 2 is skipped and [2,3] survive |
| Lists.WalkEnds | Code/ZoneManagerBase.py:83-103 | When the index passes the end of the live list, that list is the survivors and the removed elements are exactly the walk's removals |
| Lists.FirstCheapestIsFirstMinimum | Code/ZoneManagerQLearning.py:34-37 | The chosen index has minimum cost, and every earlier index costs strictly more |
| Metrics.Evaluator.constructor | Code/Evaluater.py:14-22 | All counters start at zero with an empty history |
| Metrics.Evaluator.TrackStepMetrics | Code/Evaluater.py:58-62 | Step counters move into the history and reset to zero; totals are unchanged |
| Metrics.Evaluator.UpdateTaskCount | Code/Evaluater.py:65-68 | Only the per-node count for that id rises by one |
| Metrics.Evaluator.IncrementMigrations | Code/Evaluater.py:71-73 | The migration total and the step count each rise by one |
| Metrics.Evaluator.IncrementDeadlineMisses | Code/Evaluater.py:76-78 | The deadline-miss total and the step count each rise by one |
| Metrics.Evaluator.CountGeneratedTask | Code/Node.py:111 | The generated-task total rises by one |
| Metrics.Evaluator.CountCloudTask | Code/Topology.py:100 | The cloud-task total rises by one |
| Mobility.FirstSighting | Code/Graph.py:72-73 | Returns the first record for the node id at this time, or none when there is no such record |
| Mobility.MovedIdempotent | Code/Graph.py:72-78 | Applying the same time step's records twice equals applying them once |
| Mobility.MovedByOwnRecord | Code/Graph.py:72-78 | A node with a record takes that record's position, speed and angle |
| Mobility.OfLayer | Code/Graph.py:102-106 | The layer filter keeps exactly the nodes of that layer, in order |
| Mobility.LayersPartition | Code/Graph.py:102-106 | The user, fog and cloud filters partition the node list |
| Mobility.MobilityGraph.constructor | Code/Graph.py:51-61 | The graph holds the given trace and nodes |
| Mobility.MobilityGraph.UpdateGraph | Code/Graph.py:63-79 | Clock advances by one; succeeds exactly when the new time is in the trace; then every node takes its recorded pose, and power and tasks are untouched |
| Mobility.MobilityGraph.GetUserNodes | Code/Graph.py:102-103 | Exactly the user-layer nodes |
| Mobility.MobilityGraph.GetMovingFogNodes | Code/Graph.py:105-106 | Exactly the fog-layer nodes |
| Mobility.MobilityGraph.GetNode | Code/Graph.py:108-112 | The first node with the id, or null |
| Mobility.MoveAll | Code/Graph.py:72-78 | Every node's new pose is its recorded sighting at this time |
| PyText.FindSpec | Code/Learner.py:72-82 | find returns the first occurrence, or none exactly when the pattern never occurs |
| PyText.SplitJoin | Code/Learner.py:72-82 | Splitting a joined list of separator-free parts gives the parts back |
| PyText.ReplaceIsReplaceChar | Code/Learner.py:72-82 | Replacing a one-character pattern replaces every occurrence of that character |
| PyText.IntTextRoundTrip | Code/Learner.py:72-82 | Parsing the decimal text of an integer gives the integer back |
| PyText.RealTextRoundTrip | Code/Learner.py:122-125 | Parsing the text of a finite decimal gives the number back |
| LearnerKeys.Discretize | Code/Learner.py:12-13 | A bin level lies in 0..5 |
| LearnerKeys.DiscretizeUnfolded | Code/Learner.py:12-13 | The level is the number of the five linspace edges at or below the value |
| LearnerKeys.EdgesIncrease | Code/Learner.py:12-13 | The five edges run from lo to hi and strictly increase when lo < hi |
| LearnerKeys.DiscretizeLevels | Code/Learner.py:12-13 | The level exceeds m exactly when the value reaches edge m |
| LearnerKeys.DiscretizeEnds | Code/Learner.py:12-13 | Level 0 exactly below the low edge; level 5 exactly at or above the high edge |
| LearnerKeys.DiscretizeMonotone | Code/Learner.py:12-13 | A larger value never gets a lower level |
| LearnerKeys.State.constructor | Code/Learner.py:32-34 | The state holds the given tuples |
| LearnerKeys.Action.constructor | Code/Learner.py:101-107 | The action holds the given fields |
| LearnerKeys.NearestGapIsSmallest | Code/Learner.py:316-321 | The inner loop yields the smallest squared gap to any tuple of the other state |
| LearnerKeys.StateDistanceSelf | Code/Learner.py:309-326 | A state is at distance zero from itself |
| LearnerKeys.StateDistanceSymmetricUnequal | Code/Learner.py:309-326 | With unequal fog-node counts, the shorter state is matched against the longer one whichever order they come in |
| LearnerKeys.StateDistanceOneDirectional | Code/Learner.py:309-326 | With equal fog-node counts the distance is not symmetric: a concrete pair is at 0 one way and 1 the other |
| LearnerKeys.StateDistanceIgnoresCopies | Code/test.py:27-33 | 37 copies of a tuple against 2 copies of it, with the same task, are at distance zero |
| LearnerKeys.SqrtAtMost | Code/Learner.py:294-306 | Comparing the squared distance with 100 is the same as comparing the distance with 10 |
| LearnerKeys.ActionDistanceSq | Code/Learner.py:343-347 | The action distance is non-negative and zero between equal fields |
| LearnerKeys.ActionDistanceSymmetric | Code/Learner.py:343-347 | The action distance is symmetric |
| LearnerKeys.Reward | Code/Learner.py:445-453 | 10 exactly when on time and not migrated; -10 exactly when only one of missed and migrated holds; -30 exactly when both hold |
| LearnerKeys.QLearningStep | Code/Learner.py:350-364 | The new value moves toward the target: its distance from it is (1 - alpha) times the old distance |
| LearnerKeys.QLearningStepBetween | Code/Learner.py:350-364 | The new value lies between the old value and the target |
| LearnerKeys.MeanValueStep | Code/LearnerA3C.py:14-21 | The mean-value update contracts toward reward + gamma * state value in the same way |
| Learning.FogNodeData | Code/Learner.py:56-68 | Five discretised fields per node, each in 0..5 |
| Learning.TaskData | Code/Learner.py:38-52 | Seven discretised task fields, each in 0..5 |
| Learning.GetFogNodesData | Code/Learner.py:56-68 | The loop yields one tuple per fog node, in order |
| Learning.Snapshots | Code/Learner.py:279-283 | One action snapshot per possible node, in order |
| Learning.SmallestGap | Code/Learner.py:316-321 | The inner loop returns the smallest squared gap to the other state's tuples |
| Learning.CalculateDistanceOfStates | Code/Learner.py:309-326 | The looping computation equals the squared state distance |
| Learning.ClosestRow | Code/Learner.py:294-306 | The loop returns the first row at least distance, and that distance; none for an empty table |
| Learning.NearestKeyStored | Code/Learner.py:294-306 | The nearest key of an existing state is a stored key at distance zero |
| Learning.Learner.constructor | Code/Learner.py:149-168 | Starts with an empty Q-table |
| Learning.Learner.FindNearestState | Code/Learner.py:294-306 | Returns the first stored key with the least distance, or null when every key is farther than 10 |
| Learning.Learner.ExistState | Code/Learner.py:174-179 | True exactly when some stored key is at distance zero |
| Learning.Learner.FindNearestAction | Code/Learner.py:329-340 | The first action closest within 10, skipping actions at distance zero |
| Learning.Learner.GetQValue | Code/Learner.py:223-246 | Returns the stored value or 0, and registers the state and action exactly as get_q_value does |
| Learning.Learner.GetMaxQValue | Code/Learner.py:249-258 | The largest value in the state's row, 0 for an unseen state or an empty row; the state is registered |
| Learning.Learner.GetBestQEntry | Code/Learner.py:261-291 | The action of the first candidate with the highest Q-value, null for an empty row; fails exactly where the dictionary lookup raises |
| Learning.Learner.ScanCandidates | Code/Learner.py:279-291 | Null exactly with no candidates; otherwise the snapshot of the first candidate with the highest value; the table is unchanged |
| Learning.Learner.ScoreCandidate | Code/Learner.py:282-285 | A candidate's action is the node's snapshot, scored by its value with nearest-action lookup; the table is unchanged |
| Learning.Learner.GetNodeById | Code/Learner.py:217-220 | The first node with the id, or null |
| Learning.Learner.GetFromFogNodesAndTask | Code/Learner.py:182-188 | Returns the nearest stored key when the observed state exists, otherwise a fresh state holding the observation |
| Learning.Learner.GetSuggestedAssignee | Code/Learner.py:191-214 | Null with no possible node; the drawn node under epsilon; an unseen state is stored with an empty row and yields null; otherwise the node of the best entry |
| Learning.Learner.UpdateQTable | Code/Learner.py:350-364 | The table becomes the Q-learning update of the old table |
| Learning.Learner.UpdateQTableByFinishedTask | Code/Learner.py:367-370 | Updates with the task's creation state and action |
| Learning.Learner.GetStateValue | Code/LearnerA3C.py:24-30 | 0 for an unknown key, failure for an empty row (division by zero), otherwise the row mean |
| Learning.Learner.UpdateQTableMeanValue | Code/LearnerA3C.py:14-21 | Succeeds exactly when the mean-value update is defined, and then stores it |
| QTable.PutRowLookup | Code/Learner.py:233-236 | After storing a row, looking that key up finds the stored entries |
| QTable.PutRowKeeps | Code/Learner.py:233-236 | Storing a row keeps every other row; a new key is appended at the end |
| QTable.PutEntryLookup | Code/Learner.py:364 | After storing a value, looking that action up finds that value |
| QTable.FirstClosestStateIsFirstMinimum | Code/Learner.py:294-306 | The scan's index is a first minimum of the distances |
| QTable.NearestStateMeaning | Code/Learner.py:294-306 | The nearest state is the first at least distance; none exactly when every stored key is farther than 10 |
| QTable.ExistsStateMeaning | Code/Learner.py:174-179 | Exists exactly when some key is at distance zero |
| QTable.StoredKeyExists | Code/Learner.py:174-179 | A stored key always exists |
| QTable.RegisteredHasResolved | Code/Learner.py:223-236 | After registering, the state resolves to a stored key and exists; old rows are kept; an unseen state is appended with an empty row |
| QTable.FirstClosestActionIsFirstMinimum | Code/Learner.py:329-340 | None exactly when every action is at distance zero; otherwise the first minimum among the non-zero distances |
| QTable.NearestActionSkipsExactMatch | Code/Learner.py:329-340 | An action at distance zero is never returned as the nearest |
| QTable.QValueUnseenState | Code/Learner.py:223-246 | An unseen state reads 0 |
| QTable.QValueStoredAction | Code/Learner.py:223-246 | A stored state-action pair reads its value |
| QTable.QValueNearestReadOnly | Code/Learner.py:237-243 | On a stored key, a read with nearest-action lookup leaves the table unchanged |
| QTable.MaxValue | Code/Learner.py:249-258 | At least every value of the row, and equal to one of them |
| QTable.StateValue | Code/LearnerA3C.py:24-30 | 0 when the key is missing, none for an empty row, otherwise the mean of the row |
| QTable.ResolvedStable | Code/Learner.py:223-246 | Once a state exists, extending the table keeps it existing and resolving to the same key |
| QTable.AfterQValueKeeps | Code/Learner.py:223-246 | A read adds at most one row, keeps the state's resolution, and leaves every row of other keys unchanged |
| QTable.FreshValueIsQValue | Code/Learner.py:279-285 | A candidate's score is its Q-value with nearest-action lookup, and scoring leaves the table unchanged |
| QTable.FirstMaxIsFirstMaximum | Code/Learner.py:286-288 | The chosen candidate has the highest score, and every earlier one scores strictly less |
| QTable.BestEntryOnStoredKey | Code/Learner.py:261-291 | On a stored key the result is defined: none exactly for an empty row, otherwise the first candidate with the highest value |
| QTable.BestEntryKeyError | Code/Learner.py:261-291 | When the state exists only through an equal copy, the dictionary lookup raises and the result is a failure |
| QTable.QLearningUpdateEffect | Code/Learner.py:350-364 | The entry becomes the Q-learning step toward reward + gamma * max of the next state; every other stored value is kept |
| QTable.QLearningReadsKeep | Code/Learner.py:359-363 | The reads before the write keep every stored value |
| QTable.MeanValueUpdateEffect | Code/LearnerA3C.py:14-21 | The entry becomes the mean-value step; every other stored value is kept |
| QTable.MeanValueUpdateOnStoredKey | Code/LearnerA3C.py:14-21 | On a stored key, defined exactly when the next state is unknown or its row is non-empty |
| QTable.MeanValueUpdateKeyError | Code/LearnerA3C.py:14-21 | A state reachable only through an equal copy raises at the final write |
| KeyText.StateRoundTrip | Code/Learner.py:72-88 | Parsing the printed form of a state gives back its tuples |
| KeyText.StateEmptyFogFails | Code/Learner.py:72-88 | A state with no fog-node tuple does not parse back |
| KeyText.ReadBack | Code/Learner.py:122-125 | Parsing the printed form of a finite decimal number gives the number back |
| KeyText.ActionRoundTrip | Code/Learner.py:114-125 | Parsing the printed form of an action gives back its fields |
| KeyText.ActionIdWithSeparator | Code/Learner.py:122-125 | An id containing ", " does not parse back |
| QTableText.ConvertedHas | Code/Learner.py:398-414 | A text is a key of the converted table exactly when it prints some row with at least one entry |
| QTableText.ConvertedValue | Code/Learner.py:398-414 | A non-empty row that no later non-empty row prints the same way maps to its saved (non-zero) entries |
| QTableText.ConvertEntries | Code/Learner.py:407-413 | The entry loop yields the same map as the definition |
| QTableText.ConvertQTable | Code/Learner.py:398-414 | The conversion loop yields the converted table |
| QTableText.LoadEntryItems | Code/Learner.py:391-394 | The entry loop parses every entry, or fails at the first bad one |
| QTableText.LoadQTable | Code/Learner.py:379-395 | Loading gives the parsed rows, which form a well-formed table |
| QTableText.LoadSavedEntries | Code/Learner.py:391-413 | Loading the saved entries of a row gives back its non-zero entries |
| QTableText.LoadSavedRows | Code/Learner.py:379-414 | Loading a saved table gives back its kept rows |
| QTableText.SavedListsConverted | Code/Learner.py:398-414 | With no two saved rows printing alike and no row repeating an action text, the saved items are exactly the converted dictionary's items, one per state text, each row's items exactly its dictionary's |
| QTableText.LoadConverted | Code/Learner.py:379-414 | Under the same condition, the file written by saving lists the saved items, and loading it gives back the kept rows |
| QTableText.ToMapListing | Code/Learner.py:398-414 | Items with distinct keys are exactly the items of the dictionary they build |
| QTableText.ZeroRowIsDropped | Code/Learner.py:404-409 | A row whose only value is zero is saved with no entries and loads back as nothing |
| Broadcasting.Named | Code/ZoneBroadcaster.py:9-13 | The first zone with the name, or null when none has it |
| Broadcasting.Covering | Code/ZoneBroadcaster.py:15-20 | Exactly the zones covering the point, in order |
| Broadcasting.OfferingComplete | Code/ZoneBroadcaster.py:23-29 | Every target that offers contributes its offer |
| Broadcasting.BroadcastToZones | Code/ZoneBroadcaster.py:23-29 | At most one offer per target; the offers, in target order, come one for each target that offers when the broadcast starts, each naming that zone and one of its members |
| Broadcasting.OfferOf | Code/ZoneBroadcaster.py:25-28 | An offer exactly when the zone offers; it names the zone and the member the zone's strategy picks |
| Broadcasting.ZoneBroadcaster.constructor | Code/ZoneBroadcaster.py:3-4 | Starts with no zones |
| Broadcasting.ZoneBroadcaster.SetZones | Code/ZoneBroadcaster.py:6-7 | Holds the given zones |
| Broadcasting.ZoneBroadcaster.GetZone | Code/ZoneBroadcaster.py:9-13 | The loop returns the first zone with the name |
| Broadcasting.ZoneBroadcaster.GetZonesByPosition | Code/ZoneBroadcaster.py:15-20 | The loop returns the covering zones |
| Zones.Added | Code/ZoneManagerBase.py:24-26 | The node is a member afterwards; nothing else joins or leaves |
| Zones.AddedIdempotent | Code/ZoneManagerBase.py:24-26 | Adding twice is adding once |
| Zones.AddedKeepsDistinct | Code/ZoneManagerBase.py:24-26 | Adding keeps the members duplicate-free |
| Zones.Possible | Code/ZoneManagerBase.py:60-68 | Exactly the members with enough power, in range and with enough time, in order |
| Zones.PossibleConcat | Code/ZoneManagerBase.py:60-68 | The filter distributes over concatenation |
| Zones.InsertByDistance | Code/ZoneManagerHeuristic.py:31 | Insertion adds exactly the one element |
| Zones.SortByDistanceSorts | Code/ZoneManagerHeuristic.py:31 | The result is farthest-first and a permutation of the input |
| Zones.SortByDistanceStable | Code/ZoneManagerHeuristic.py:31 | With all distances equal, the order is kept |
| Zones.ScanOrderFarthestFirst | Code/ZoneManagerHeuristic.py:29-44 | The heuristic scans the nodes farthest first |
| Zones.Examined | Code/ZoneManagerHeuristic.py:29-44 | min(n, 10) nodes are examined |
| Zones.HeuristicPickIsCheapestExamined | Code/ZoneManagerHeuristic.py:29-44 | Null exactly with no nodes; otherwise the first cheapest of the examined farthest-first nodes |
| Zones.HeuristicPickFewNodes | Code/ZoneManagerHeuristic.py:29-44 | With at most 10 nodes, the pick is a cheapest node overall |
| Zones.IterateOverOutputs | Code/ZoneManagerHeuristic.py:29-44 | The loop returns the heuristic pick |
| Zones.RandomPick | Code/ZoneManagerRandom.py:18-29 | Null exactly with no members, otherwise a member |
| Zones.LearnedChoice | Code/ZoneManagerQLearning.py:24-38 | Null exactly with no possible node; the draw under epsilon; the cheapest for an unseen state |
| Zones.LearnedChoiceFollows | Code/ZoneManagerQLearning.py:24-38 | The learner's suggestion, or the cheapest fallback, is the learned choice |
| Zones.SuggestedIsMember | Code/Learner.py:191-214 | A suggestion is one of all the nodes, with the id of a possible node |
| Zones.Zone.constructor | Code/ZoneManagerBase.py:11-16 | A zone with the given centre, radius, name and strategy, no members, and a fresh empty learner when it learns |
| Zones.Zone.IsWithinCoverageExact | Code/ZoneManagerBase.py:19-21 | The squared coverage test is distance at most the radius |
| Zones.Zone.AddFogNode | Code/ZoneManagerBase.py:24-26 | Members become Added(members, node) |
| Zones.Zone.GetPossibleFogNodes | Code/ZoneManagerBase.py:60-68 | Returns the zone's possible nodes: the feasible members, or all members for the Heuristic zone |
| Zones.Zone.FindAssignee | Code/ZoneManagerQLearning.py:24-38 | Each strategy's pick; null exactly when nothing is feasible (learned) or there are no members (others) |
| Zones.Zone.CreateOffer | Code/ZoneManagerBase.py:41-48 | An offer exactly when the user is covered and an assignee exists; it names this zone and the strategy's pick: the drawn member (random), the cheapest examined member (heuristic) or the learned choice (learning zones) |
| Zones.Zone.AcceptOffer | Code/ZoneManagerBase.py:51-57 | Accepted exactly when the node is still possible; a refusal changes nothing; an acceptance appends the task and its state; A3C fails after appending |
| Zones.Zone.SendTaskResultToOwner | Code/ZoneManagerBase.py:72-78 | Succeeds exactly when the owner is found, the zone is not A3C, and a Q-learning task has a creation state and an action; a missing owner changes nothing; a found owner gets the result with the miss flag set from the deadline |
| Zones.Zone.Deliver | Code/ZoneManagerQLearning.py:73-83 | Delivers, then (Q-learning) updates the table with the task's reward; A3C fails |
| Zones.Zone.AfterDelivery | Code/ZoneManagerA3C.py:57-68 | The strategy's post-delivery step: Q-learning update, or an A3C failure |
| Zones.Zone.RouteTarget | Code/ZoneManagerBase.py:87-91 | This zone when it covers the creator, otherwise the nearest zone |
| Zones.Zone.RouteResult | Code/ZoneManagerBase.py:86-98 | Migration counted and flagged exactly when the target differs from this zone; the target delivers |
| Zones.Zone.ReleaseOne | Code/ZoneManagerBase.py:85-98 | Removes the task, returns its power, and leaves the completion of other tasks unchanged |
| Zones.Zone.ReleaseCompleted | Code/ZoneManagerBase.py:84-98 | The marks are the completion tests of the node's tasks; the node only loses tasks; on success its list is the walk's survivors and its power regains exactly the removed tasks' power |
| Zones.Zone.ReleaseAll | Code/ZoneManagerBase.py:83-98 | Every member keeps its position and only loses tasks; on success each member's list is the walk's survivors and its power regains exactly the removed tasks' power; when no task sits on two members, the marks are the completion tests of the tasks before the step |
| Zones.Zone.Rezone | Code/ZoneManagerBase.py:100-103 | Members become the walk's survivors of the out-of-coverage marks; removed nodes rejoin the other zones |
| Zones.Zone.Update | Code/ZoneManagerBase.py:81-103 | Every old member keeps its position and only loses tasks; on success each old member went through the release walk (survivors and regained power), with marks equal to the completion tests when no task sits on two members, the members become the survivors of the out-of-coverage walk and every other zone gets Rejoined; on failure the rosters are unchanged |
| Zones.Zone.RezoneKeepsInside | Code/ZoneManagerBase.py:100-103 | A node inside the coverage is never removed; every removed node is outside; without adjacent outside nodes, all survivors are inside |
| Zones.NearestOf | Code/Topology.py:122-130 | Null exactly with no zones, otherwise a zone |
| Zones.NearestOfIsNearest | Code/Topology.py:122-130 | The first zone at minimum distance |
| Zones.NearestZone | Code/Topology.py:122-130 | The loop returns that zone |
| Zones.ReachCapsAtThree | Code/Topology.py:51-59 | With the limit, the scan stops after three covering zones |
| Zones.AssignFogNodeToZones | Code/Topology.py:51-59 | Each picked zone gets Added(node); every other zone is unchanged |
| Zones.RejoinedDrawsFrom | Code/ZoneManagerBase.py:100-103 | After re-zoning, another zone holds only its old members and the moved nodes |
| Orchestration.Common | Code/Topology.py:111-115 | Only zones present in both lists |
| Orchestration.CommonComplete | Code/Topology.py:111-115 | Every zone present in both lists is kept |
| Orchestration.TargetsCover | Code/Topology.py:105-117 | Targets cover the user, and cover the predicted point too when the two sets meet |
| Orchestration.ThresholdExact | Code/Topology.py:86-87 | The squared threshold is "distance below half the cloud distance" |
| Orchestration.Overflow | Code/Topology.py:133-137 | Eviction count: zero up to 20, otherwise the excess over 20 |
| Orchestration.FifoStep | Code/Topology.py:139-143 | One retry keeps the FIFO invariant |
| Orchestration.RetriedOnce | Code/Topology.py:132-143 | Without overflow, each queued task is retried exactly once, in order |
| Orchestration.NearestOffer | Code/Topology.py:74-85 | The first offer at minimum distance |
| Orchestration.Passed | Code/Topology.py:74-92 | Removing the refused best offer keeps the ordering invariant |
| Orchestration.Topology.constructor | Code/Topology.py:20-28 | The given layers and graph; no zones and an empty queue |
| Orchestration.Topology.SetZones | Code/Topology.py:30-32 | Zones set on the topology and its broadcaster |
| Orchestration.Topology.GetNode | Code/Topology.py:119-120 | The graph's first node with the id |
| Orchestration.Topology.GetTargetZones | Code/Topology.py:105-117 | Covering zones at the position, narrowed to those also covering the prediction when such zones exist |
| Orchestration.Topology.OfferLoop | Code/Topology.py:74-92 | Accepted: a near enough and acceptable offer, with every nearer one refused; Beyond: the nearest left is too far; Exhausted: all refused |
| Orchestration.Topology.Consider | Code/Topology.py:84-92 | Too far, missing zone, declined or taken, as the branch decides |
| Orchestration.Topology.CloudFallback | Code/Topology.py:94-103 | On the cloud exactly when admitted, counting a cloud task; otherwise queued, changing nothing else |
| Orchestration.Topology.AssignTaskRandom | Code/Topology.py:145-164 | Cloud only with no fog nodes; the drawn fog node when feasible; otherwise queued; fails only with no nodes at all |
| Orchestration.Topology.ProcessTaskQueue | Code/Topology.py:132-143 | Evicts the oldest overflow, one miss each; retries the rest in FIFO order; success means every pre-eviction slot was tried |
| Orchestration.Topology.EvictOverflow | Code/Topology.py:133-137 | The oldest overflow leaves, one miss counted per task |
| Orchestration.Topology.RetryHead | Code/Topology.py:139-143 | The head is re-stamped at the clock and requeued at the back only when queued again |
| Orchestration.Topology.AssignTask | Code/Topology.py:61-103 | Placement meanings; never dropped in fully random mode |
| Orchestration.Topology.Broadcast | Code/Topology.py:65-67 | The targets are the target zones of the user and task; the offers are one per offering target, in target order, each naming that zone and one of its members; only learners change |
| Orchestration.Topology.TargetsFor | Code/Topology.py:65-66 | Returns the target zones of the user and task, all of them zones of the topology |
| Orchestration.Topology.AskTargets | Code/Topology.py:67 | Offers from zone members; one per offering target, in target order, each naming that zone and one of its members |
| Orchestration.Topology.AssignByOffers | Code/Topology.py:66-103 | On fog: a member received the task; on cloud: admitted; queued: not admitted; dropped: the nearest remaining offer was too far |
| Orchestration.Topology.Place | Code/Topology.py:70-103 | The same meanings, plus every refusal along the way |
| Orchestration.Topology.SendCloudTaskResultToOwner | Code/Topology.py:44-49 | Fails exactly when the owner is missing; otherwise delivers and counts the miss |
| Orchestration.Topology.ReleaseCloudTask | Code/Topology.py:38-42 | Removes one task and returns its power |
| Orchestration.Topology.ReleaseCloudTasks | Code/Topology.py:38-42 | The walk releases the done-marked tasks of one cloud node |
| Orchestration.Topology.CloudSweep | Code/Topology.py:38-42 | Every cloud node keeps its position and only loses tasks; on a duplicate-free cloud layer each went through the release walk (survivors and regained power), with marks equal to the completion tests when no task sits on two cloud nodes |
| Orchestration.Topology.UpdateZones | Code/Topology.py:36-37 | Every zone is updated; members only leave; every old member keeps its position and only loses tasks |
| Orchestration.Topology.RunZone | Code/Topology.py:36-37 | One zone's update: its old members went through the release walk on success, then the out-of-coverage walk with Rejoined for the other zones; on failure no roster changes; every member of any zone keeps its position and only loses tasks |
| Orchestration.Topology.UpdateTopology | Code/Topology.py:34-42 | Clock advances by one; success implies the time is in the trace; when it is, every node takes its Moved pose; queue and zone list kept; zone members and cloud nodes only lose tasks; on success the cloud nodes, when distinct and in no zone, went through the release walk |
| Orchestration.Topology.ReleaseTick | Code/Topology.py:36-42 | Members only leave; zone members and cloud nodes keep their positions and only lose tasks; on success the cloud nodes, when distinct and in no zone, went through the release walk, with marks equal to their completion tests before the step when no zone touches their tasks |
| Orchestration.Topology.ZonesBeforeCloud | Code/Topology.py:36-37 | Members only leave and keep their positions; cloud nodes in no zone are untouched, so their completion tests are those before the zone updates |
| Orchestration.Topology.CloudWalk | Code/Topology.py:38-42 | One cloud node keeps its position and goes through the release walk; the other cloud nodes' completion tests are kept |
| Orchestration.Accept | Code/ZoneManagerBase.py:51-57 | Accepted exactly when possible; a refusal changes nothing; an acceptance appends and charges the node |

## Left out

- Parsing the SUMO XML and the task, fog and zone files (`init_graph`, `get_tasks`, `get_fixed_fog_node`, `get_zones`, and the XML parser module) is file I/O. The model takes the parsed trace and nodes as values.
- The JSON file reading and writing in `save_q_table`/`load_q_table` is file I/O. The dictionary each one builds or reads is modelled.
- The simulation driver script, the visualiser, `timer_log`, the evaluator's `log_*` printers and every `print` produce output only.
- The layer container classes are plain sequences of nodes here.
- `math.sqrt`, `cos` and `sin` are not in Dafny's reals. Distances are squared, with exactness lemmas, and the heading's cosine and sine are parameters.
- `random.random`/`random.choice` and the routing cost oracle are parameters (the `Draw` value).
- The text of numpy integer scalars is modelled as plain integer text.
- Zones.SortByDistanceStable: proves order preservation only when all distances are equal, not full stability of Python's sort.
- Entities.Node.RemoveTask: requires the task to be held, where Python raises `ValueError`; every caller removes a task it has just found in the list.
- Learning.Learner.UpdateQTableByFinishedTask: requires a creation state and an action. A missing creation state makes Python raise when its distance is computed. A missing action does not raise in Python: `get_q_value` registers a 0 under the key `None` (`Code/Learner.py:245`) and `update_q_table` then writes the new value there (`Code/Learner.py:364`). That case cannot arise, because `append_task` always sets the action (`Code/Node.py:96-98`) and `remove_assignee` keeps it. Where Python would store a `None`-keyed entry, the zone reports failure instead (`Zones.Zone.Deliver`, `Zones.Zone.AfterDelivery`, `Zones.Zone.SendTaskResultToOwner`).
- QTableText.ConvertQTable: the table's entries always carry an action, so the skip of a `None` action in `convert_q_table` (`Code/Learner.py:410-412`) has nothing to act on and is not modelled.
- KeyText.StateRoundTrip: proved only for at least one fog tuple and tuples of length at least 2. Python prints a one-element tuple with a trailing comma.
- KeyText.ActionRoundTrip: proved only for ids without ", " or the prefix, and for finitely representable decimals. Binary float printing is not modelled.
- Orchestration.Topology.GetTargetZones: `get_target_zones` intersects the zones as Python sets, whose order follows hashing. The model keeps the intersection in the order of the current zones. The order of the offers, and with it which of two equally near offers is taken first, can therefore differ from the program.
- Broadcasting.BroadcastToZones: states which zone each offer comes from and that it names one of that zone's members, not which member. Which member is stated per zone by `Broadcasting.OfferOf` (and `Zones.Zone.CreateOffer`): the zone strategy's pick. Each zone builds its own learner (`Code/ZoneManagerQLearning.py:13`), but the model does not carry that the zones' learners are distinct. As far as the proofs know, asking one zone could change the table a later zone reads, so the pick of a later zone is not stated in terms of the state before the broadcast.
- Orchestration.Topology.Broadcast: the same gap as `Broadcasting.BroadcastToZones`; so does `Orchestration.Topology.AskTargets`, which states the `Broadcasting.BroadcastToZones` contract at the call site.
- Orchestration.Topology.UpdateZones: states that members only leave, keep their positions and only lose tasks, not the release walk of each zone. A node in several zones is walked once per zone, so the zone-by-zone walks are not composed into one statement.
- Orchestration.Topology.ReleaseTick: the zone half states only what `Orchestration.Topology.UpdateZones` states. The cloud half states the release walk when the cloud nodes are distinct and in no zone.
- Orchestration.Topology.UpdateTopology: the same as `Orchestration.Topology.ReleaseTick` for the zones and the cloud.
- QTableText.LoadSavedRows: states the round trip over the list of saved items. `QTableText.LoadConverted` ties that list to the dictionary `convert_q_table` writes when no two rows print alike and no row repeats an action text. When texts collide, the dictionary keeps the later value and the round trip is not stated.
