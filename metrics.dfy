/** The simulation clock and the run counters (Code/Evaluater.py). The source keeps both as
 *  class-level globals; here each is one object that the operations receive and modify. */
module Metrics {

  /** The global simulation time (`Clock.time`). */
  class Clock {
    var time: real

    constructor (time: real)
      ensures this.time == time
    {
      this.time := time;
    }
  }

  function Sum(s: seq<int>): int
  {
    if |s| == 0 then 0 else Sum(s[..|s| - 1]) + s[|s| - 1]
  }

  lemma SumAppend(s: seq<int>, x: int)
    ensures Sum(s + [x]) == Sum(s) + x
  {
    assert (s + [x])[..|s|] == s;
  }

  /** Number of times `id` occurs in `log`. */
  function Occurrences(log: seq<string>, id: string): nat
  {
    if |log| == 0 then 0
    else Occurrences(log[..|log| - 1], id) + (if log[|log| - 1] == id then 1 else 0)
  }

  lemma OccurrencesAppend(log: seq<string>, x: string, id: string)
    ensures Occurrences(log + [x], id) == Occurrences(log, id) + (if x == id then 1 else 0)
  {
    assert (log + [x])[..|log|] == log;
  }

  /** Every counter of an `Evaluator`, as one value. */
  datatype Counters = Counters(
    migrationsCount: int, deadlineMisses: int, totalTasks: int, cloudTasks: int,
    fogNodeTaskCounts: map<string, int>,
    migrationCountsPerStep: seq<int>, deadlineMissesPerStep: seq<int>,
    currentStepMigrations: int, currentStepDeadlineMisses: int)

  /** The run counters. */
  class Evaluator {
    var migrationsCount: int
    var deadlineMisses: int
    var totalTasks: int
    var cloudTasks: int
    var fogNodeTaskCounts: map<string, int>
    var migrationCountsPerStep: seq<int>
    var deadlineMissesPerStep: seq<int>
    var currentStepMigrations: int
    var currentStepDeadlineMisses: int
    /** The ids passed to `UpdateTaskCount`, oldest first. */
    ghost var countedIds: seq<string>

    /** Each total is its history plus the current step, and each node's task count is the
     *  number of times its id was counted. */
    ghost predicate Valid()
      reads this
    {
      && migrationsCount == Sum(migrationCountsPerStep) + currentStepMigrations
      && deadlineMisses == Sum(deadlineMissesPerStep) + currentStepDeadlineMisses
      && (forall id :: id in fogNodeTaskCounts ==> fogNodeTaskCounts[id] == Occurrences(countedIds, id))
      && (forall id :: id !in fogNodeTaskCounts ==> Occurrences(countedIds, id) == 0)
    }

    function Snapshot(): Counters
      reads this
    {
      Counters(migrationsCount, deadlineMisses, totalTasks, cloudTasks, fogNodeTaskCounts,
               migrationCountsPerStep, deadlineMissesPerStep, currentStepMigrations, currentStepDeadlineMisses)
    }

    /** All counters start at zero. */
    constructor ()
      ensures Valid()
      ensures migrationsCount == 0 && deadlineMisses == 0 && totalTasks == 0 && cloudTasks == 0
      ensures fogNodeTaskCounts == map[] && migrationCountsPerStep == [] && deadlineMissesPerStep == []
      ensures currentStepMigrations == 0 && currentStepDeadlineMisses == 0
    {
      migrationsCount, deadlineMisses, totalTasks, cloudTasks := 0, 0, 0, 0;
      fogNodeTaskCounts := map[];
      migrationCountsPerStep, deadlineMissesPerStep := [], [];
      currentStepMigrations, currentStepDeadlineMisses := 0, 0;
      countedIds := [];
    }

    /** `track_step_metrics`: close the step, recording its counts, and start a new one. */
    method TrackStepMetrics()
      requires Valid()
      modifies this
      ensures Valid() && countedIds == old(countedIds)
      ensures Snapshot() == old(Snapshot()).(
                migrationCountsPerStep := old(migrationCountsPerStep) + [old(currentStepMigrations)],
                deadlineMissesPerStep := old(deadlineMissesPerStep) + [old(currentStepDeadlineMisses)],
                currentStepMigrations := 0, currentStepDeadlineMisses := 0)
    {
      SumAppend(migrationCountsPerStep, currentStepMigrations);
      SumAppend(deadlineMissesPerStep, currentStepDeadlineMisses);
      migrationCountsPerStep := migrationCountsPerStep + [currentStepMigrations];
      deadlineMissesPerStep := deadlineMissesPerStep + [currentStepDeadlineMisses];
      currentStepMigrations := 0;
      currentStepDeadlineMisses := 0;
    }

    /** `update_task_count`: one more task placed on node `id`. */
    method UpdateTaskCount(id: string)
      requires Valid()
      modifies this
      ensures Valid() && countedIds == old(countedIds) + [id]
      ensures Snapshot() == old(Snapshot()).(fogNodeTaskCounts := old(fogNodeTaskCounts)[id :=
                (if id in old(fogNodeTaskCounts) then old(fogNodeTaskCounts)[id] else 0) + 1])
    {
      if id !in fogNodeTaskCounts {
        fogNodeTaskCounts := fogNodeTaskCounts[id := 0];
      }
      fogNodeTaskCounts := fogNodeTaskCounts[id := fogNodeTaskCounts[id] + 1];
      forall other ensures Occurrences(countedIds + [id], other) == Occurrences(countedIds, other) + (if id == other then 1 else 0) {
        OccurrencesAppend(countedIds, id, other);
      }
      countedIds := countedIds + [id];
    }

    /** `increment_migrations`: one more migration in this step and in total. */
    method IncrementMigrations()
      requires Valid()
      modifies this
      ensures Valid() && countedIds == old(countedIds)
      ensures Snapshot() == old(Snapshot()).(
                migrationsCount := old(migrationsCount) + 1, currentStepMigrations := old(currentStepMigrations) + 1)
    {
      currentStepMigrations := currentStepMigrations + 1;
      migrationsCount := migrationsCount + 1;
    }

    /** `increment_deadline_misses`: one more missed deadline in this step and in total. */
    method IncrementDeadlineMisses()
      requires Valid()
      modifies this
      ensures Valid() && countedIds == old(countedIds)
      ensures Snapshot() == old(Snapshot()).(
                deadlineMisses := old(deadlineMisses) + 1, currentStepDeadlineMisses := old(currentStepDeadlineMisses) + 1)
    {
      currentStepDeadlineMisses := currentStepDeadlineMisses + 1;
      deadlineMisses := deadlineMisses + 1;
    }

    /** `Evaluator.total_tasks += 1` in `generate_task`. */
    method CountGeneratedTask()
      requires Valid()
      modifies this
      ensures Valid() && countedIds == old(countedIds)
      ensures Snapshot() == old(Snapshot()).(totalTasks := old(totalTasks) + 1)
    {
      totalTasks := totalTasks + 1;
    }

    /** `Evaluator.cloud_tasks += 1` when the cloud takes a task. */
    method CountCloudTask()
      requires Valid()
      modifies this
      ensures Valid() && countedIds == old(countedIds)
      ensures Snapshot() == old(Snapshot()).(cloudTasks := old(cloudTasks) + 1)
    {
      cloudTasks := cloudTasks + 1;
    }
  }
}
