/**
 * The entry point the reward functions call: choose serial execution in this
 * process or the process pool, and return one result per task in task order.
 */
module Executor {
  import opened Wrappers
  import opened Wasm
  import opened ParallelExecutor

  /** `list(map(does_code_run, tasks))`: every task run in turn, verdicts in task order. */
  function RunSerially(tasks: seq<string>, run: string -> bool): (results: seq<TaskResult>)
    ensures |results| == |tasks|
    ensures forall i :: 0 <= i < |tasks| ==> results[i] == Ran(run(tasks[i]))
  {
    if tasks == [] then [] else [Ran(run(tasks[0]))] + RunSerially(tasks[1..], run)
  }

  /** Running a batch serially is running its two halves one after the other. */
  lemma {:induction false} RunSeriallyAppend(a: seq<string>, b: seq<string>, run: string -> bool)
    ensures RunSerially(a + b, run) == RunSerially(a, run) + RunSerially(b, run)
  {
    if a != [] {
      assert (a + b)[1..] == a[1..] + b;
      RunSeriallyAppend(a[1..], b, run);
    }
  }

  /**
   * The globals this module reads and writes: its own `_executor`, its own
   * `worker_env` (which nothing ever assigns), and the two modules whose globals
   * it changes through calls: the pool singleton and the `worker_env` of the
   * sandbox module.
   */
  class Dispatcher {
    var executor: Option<Pool>
    var workerEnv: Option<Environment>
    const registry: PoolRegistry
    const wasm: WorkerSlot

    /** The pool singleton is consistent, and this module's `worker_env` is still `None`. */
    ghost predicate Valid()
      reads this, registry
    {
      registry.Valid() && workerEnv == None
    }

    /** The state at import: `_executor, worker_env = None, None`. */
    constructor (registry: PoolRegistry, wasm: WorkerSlot)
      requires registry.Valid()
      ensures Valid()
      ensures this.registry == registry && this.wasm == wasm && executor == None
    {
      executor, workerEnv := None, None;
      this.registry, this.wasm := registry, wasm;
    }

    /**
     * `get_executor`. With more than one process it fetches the pool singleton,
     * stores it in this module's `_executor` and returns it. Otherwise it returns
     * `None` and leaves every pool handle alone; but since the guard it tests is this
     * module's never-assigned `worker_env`, it builds and installs a new sandbox
     * environment on every such call.
     */
    method GetExecutor(maxProcesses: int, wasmPath: string, fuel: int) returns (r: Option<Pool>)
      requires Valid()
      modifies this, registry, wasm
      ensures Valid()
      ensures maxProcesses > 1 ==>
        && r.Some? && executor == r && registry.executor == r
        && (old(registry.executor).Some? ==> r == old(registry.executor) && unchanged(registry))
        && (old(registry.executor).None? ==> r == Some(Pool(maxProcesses, wasmPath, fuel, old(registry.created))))
        && unchanged(wasm)
      ensures maxProcesses > 1 && old(registry.executor).None? ==>
        && registry.created == old(registry.created) + 1
        && registry.exitHooks == old(registry.exitHooks) + 1
        && registry.shutDown == old(registry.shutDown)
      ensures maxProcesses <= 1 ==>
        && r.None? && unchanged(this) && unchanged(registry)
        && wasm.env == Some(Environment(wasmPath, fuel, old(wasm.built)))
        && wasm.built == old(wasm.built) + 1
    {
      if maxProcesses > 1 {
        var pool := registry.GetMultiprocessingExecutor(maxProcesses, wasmPath, fuel);
        executor := Some(pool);
        return executor;
      }
      if workerEnv == None {
        wasm.Install(wasmPath, fuel);
      }
      r := None;
    }

    /**
     * `execute_tasks`: one result per task, in task order. Serially each result is
     * the task's own verdict. Through the pool each result is its own task's verdict
     * or the 0.0 placeholder, and all of them are verdicts unless the pool stalled,
     * in which case the pool is shut down and its handle cleared for the next call to
     * rebuild, while this module's `_executor` keeps the stale handle.
     */
    method ExecuteTasks(tasks: seq<string>, maxProcesses: int, wasmPath: string, fuel: int, taskTimeout: int, run: string -> bool)
      returns (results: seq<TaskResult>, ghost stalled: bool)
      requires Valid()
      modifies this, registry, wasm
      ensures Valid()
      ensures |results| == |tasks|
      ensures forall i :: 0 <= i < |tasks| ==> results[i] == Unset || results[i] == Ran(run(tasks[i]))
      ensures !stalled ==> forall i :: 0 <= i < |tasks| ==> results[i] == Ran(run(tasks[i]))
      ensures maxProcesses <= 1 ==>
        && results == RunSerially(tasks, run) && !stalled
        && unchanged(this) && unchanged(registry)
        && wasm.env == Some(Environment(wasmPath, fuel, old(wasm.built)))
        && wasm.built == old(wasm.built) + 1
      ensures stalled ==> exists i :: 0 <= i < |results| && results[i] == Unset
      ensures maxProcesses > 1 ==>
        && unchanged(wasm)
        && executor == Some(if old(registry.executor).Some? then old(registry.executor).value
                            else Pool(maxProcesses, wasmPath, fuel, old(registry.created)))
        && registry.created == old(registry.created) + (if old(registry.executor).None? then 1 else 0)
        && (stalled <==> registry.executor.None?)
      ensures maxProcesses > 1 && !stalled ==> registry.executor == executor && registry.shutDown == old(registry.shutDown)
      ensures maxProcesses > 1 && stalled ==> registry.shutDown == old(registry.shutDown) + [executor.value]
    {
      var pool := GetExecutor(maxProcesses, wasmPath, fuel);
      if maxProcesses > 1 {
        ghost var rounds;
        results, rounds, stalled := RunTasksWithMultiprocessingExecutor(registry, pool.value, tasks, taskTimeout, run);
      } else {
        results, stalled := RunSerially(tasks, run), false;
      }
    }
  }
}
