/** The simulator's configuration constants (Code/Config.py). Distances are in metres,
 *  times in timeslots, power in abstract compute units. */
module Config {
  const FogCoverageRadius: real := 3.0
  const CloudCoverageRadius: real := 100.0
  const CloudX: real := 50.0
  const CloudY: real := 50.0
  const TimeslotLength: real := 1.0
  const SimulationDuration: nat := 199

  const PacketCostPerMeter: real := 0.001
  const TaskCostPerMeter: real := 0.005
  const MigrationOverhead: real := 0.01
  const CloudProcessingOverhead: real := 0.5

  const NearestActionDistanceThreshold: real := 10.0
  const NearestStateDistanceThreshold: real := 10.0

  const CloudPower: real := 30.0
  const FogPower: real := 15.0

  /** Number of bin edges used to discretize every observed quantity. */
  const DiscreteLevels: nat := 5
  /** Longest task queue the topology keeps between two steps. */
  const TaskQueueSize: nat := 20
  /** In offline mode the learner starts from an empty table and registers unseen states. */
  const OfflineMode: bool := true

  /** The placement strategies the simulator can run with. */
  datatype RunningMode = RandomMode | QLearningMode | HeuristicMode | A3CMode | FullyRandomMode

  const DefaultRunningMode: RunningMode := QLearningMode
}
