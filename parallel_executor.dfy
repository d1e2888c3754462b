/**
 * The process pool used for parallel execution: a process-wide singleton handle
 * with lazy creation and explicit teardown, and the loop that collects the
 * results of one batch back into submission order.
 */
module ParallelExecutor {
  import opened Wrappers
  import opened Wasm

  /**
   * One slot of a batch's result list: the 0.0 it is pre-filled with, or the
   * boolean that the task's future returned.
   */
  datatype TaskResult = Unset | Ran(passed: bool) {
    /** The slot as a number, the way Python compares and sums it (True is 1, False is 0). */
    function Value(): (v: real)
      ensures v == 1.0 <==> this == Ran(true)
      ensures v == 0.0 <==> this != Ran(true)
    {
      match this
      case Unset => 0.0
      case Ran(b) => if b then 1.0 else 0.0
    }
  }

  /**
   * A `ProcessPoolExecutor`: its worker count, the initializer arguments every
   * worker receives, and which creation (counted per process) it was.
   */
  datatype Pool = Pool(maxWorkers: int, wasmPath: string, fuel: int, serial: nat)

  /** A future returned by `executor.submit(does_code_run, code)`. */
  class Future {
    const pool: Pool
    const code: string

    constructor (pool: Pool, code: string)
      ensures this.pool == pool && this.code == code
    {
      this.pool := pool;
      this.code := code;
    }

    /** `future.result()`: the worker's verdict on the submitted snippet. */
    function Result(run: string -> bool): bool {
      run(code)
    }
  }

  /**
   * `worker_init`: every worker process builds its own environment from the
   * initializer arguments and installs it in its own `worker_env`.
   */
  method WorkerInit(slot: WorkerSlot, wasmPath: string, fuel: int)
    modifies slot
    ensures slot.env == Some(Environment(wasmPath, fuel, old(slot.built)))
    ensures slot.built == old(slot.built) + 1
  {
    slot.Install(wasmPath, fuel);
  }

  /**
   * The module-level `_executor` of this module, with what creating and tearing
   * down pools leaves behind: the `atexit` registrations of `cleanup_executor`,
   * whether the SIGINT/SIGTERM handlers are installed, and the pools shut down so far.
   */
  class PoolRegistry {
    var executor: Option<Pool>
    var created: nat
    var exitHooks: nat
    var signalHandlers: bool
    var shutDown: seq<Pool>

    /**
     * Every creation registers one exit hook; the signal handlers are installed
     * from the first creation on; the live pool, if any, is the latest one created;
     * pools are shut down in creation order, each at most once, and never the live one.
     */
    ghost predicate Valid()
      reads this
    {
      && exitHooks == created
      && signalHandlers == (created > 0)
      && (executor.Some? ==> created > 0 && executor.value.serial == created - 1)
      && (forall k :: 0 <= k < |shutDown| ==> shutDown[k].serial < created)
      && (forall k :: 0 <= k < |shutDown| && executor.Some? ==> shutDown[k].serial < executor.value.serial)
      && (forall k, l :: 0 <= k < l < |shutDown| ==> shutDown[k].serial < shutDown[l].serial)
    }

    /** The state at import: `_executor = None`. */
    constructor ()
      ensures Valid()
      ensures executor == None && created == 0 && shutDown == []
    {
      executor := None;
      created := 0;
      exitHooks := 0;
      signalHandlers := false;
      shutDown := [];
    }

    /**
     * `get_multiprocessing_executor`: return the live pool if there is one, whatever
     * arguments are passed now; otherwise create a pool with these arguments, make it
     * the live one, and register the exit hook and the signal handlers.
     */
    method GetMultiprocessingExecutor(maxProcesses: int, wasmPath: string, fuel: int) returns (pool: Pool)
      requires Valid()
      modifies this
      ensures Valid()
      ensures executor == Some(pool)
      ensures old(executor).Some? ==> pool == old(executor).value && unchanged(this)
      ensures old(executor).None? ==>
        && pool == Pool(maxProcesses, wasmPath, fuel, old(created))
        && created == old(created) + 1
        && exitHooks == old(exitHooks) + 1
        && signalHandlers
        && shutDown == old(shutDown)
    {
      if executor.None? {
        executor := Some(Pool(maxProcesses, wasmPath, fuel, created));
        created := created + 1;
        exitHooks := exitHooks + 1;
        signalHandlers := true;
      }
      pool := executor.value;
    }

    /**
     * `cleanup_executor`: shut down the live pool without waiting and clear the
     * handle; nothing happens when no pool is live, so a second call is a no-op.
     */
    method CleanupExecutor()
      requires Valid()
      modifies this
      ensures Valid()
      ensures executor == None
      ensures old(executor).None? ==> unchanged(this)
      ensures old(executor).Some? ==> shutDown == old(shutDown) + [old(executor).value]
      ensures created == old(created) && exitHooks == old(exitHooks) && signalHandlers == old(signalHandlers)
    {
      if executor.Some? {
        shutDown := shutDown + [executor.value];
        executor := None;
      }
    }
  }

  /**
   * `wait(futures, timeout, FIRST_EXCEPTION)`: it returns when every future is done,
   * when one raises, or when the timeout elapses, so the futures done by then may be
   * any part of those waited on. The rest come back as the still-pending ones.
   */
  method Wait(pending: set<Future>, timeout: int) returns (done: set<Future>, notDone: set<Future>)
    ensures done <= pending
    ensures notDone == pending - done
  {
    done :| done <= pending;
    notDone := pending - done;
  }

  /** `futures_to_index` maps each future to the position of its task, and `futures` lists them in that order. */
  ghost predicate Indexed(futuresToIndex: map<Future, nat>, futures: seq<Future>, tasks: seq<string>) {
    && |futures| == |tasks|
    && (forall k :: 0 <= k < |futures| ==> futures[k] in futuresToIndex && futuresToIndex[futures[k]] == k)
    && (forall k :: 0 <= k < |futures| ==> futures[k].code == tasks[k])
    && (forall f :: f in futuresToIndex ==> futuresToIndex[f] < |futures| && futures[futuresToIndex[f]] == f)
  }

  /**
   * Every slot whose future is still `pending` holds 0.0; every other slot holds the
   * verdict on its own task.
   */
  ghost predicate Collected(
    results: seq<TaskResult>, futures: seq<Future>, tasks: seq<string>, pending: set<Future>, run: string -> bool)
    requires |futures| == |tasks|
  {
    && |results| == |tasks|
    && forall k :: 0 <= k < |tasks| ==> results[k] == if futures[k] in pending then Unset else Ran(run(tasks[k]))
  }

  /**
   * The dict comprehension `{executor.submit(does_code_run, task): i for i, task in enumerate(tasks)}`
   * and `list(futures_to_index)`: one new future per task, in task order.
   */
  method SubmitAll(executor: Pool, tasks: seq<string>)
    returns (futuresToIndex: map<Future, nat>, futures: seq<Future>)
    ensures Indexed(futuresToIndex, futures, tasks)
    ensures futuresToIndex.Keys == set k | 0 <= k < |futures| :: futures[k]
  {
    futuresToIndex, futures := map[], [];
    var i := 0;
    while i < |tasks|
      invariant 0 <= i <= |tasks|
      invariant Indexed(futuresToIndex, futures, tasks[..i])
    {
      var f := new Future(executor, tasks[i]);
      futuresToIndex := futuresToIndex[f := i];
      futures := futures + [f];
      i := i + 1;
    }
    assert tasks[..i] == tasks;
  }

  /**
   * `for future in done: results[futures_to_index[future]] = future.result()`:
   * record every finished future at its own task's index.
   */
  method RecordDone(
    results: seq<TaskResult>, done: set<Future>, notDone: set<Future>,
    futuresToIndex: map<Future, nat>, futures: seq<Future>, tasks: seq<string>, run: string -> bool)
    returns (results': seq<TaskResult>)
    requires Indexed(futuresToIndex, futures, tasks)
    requires done <= futuresToIndex.Keys && done !! notDone
    requires Collected(results, futures, tasks, done + notDone, run)
    ensures Collected(results', futures, tasks, notDone, run)
  {
    results' := results;
    var remaining := done;
    while remaining != {}
      invariant remaining <= done
      invariant Collected(results', futures, tasks, notDone + remaining, run)
      decreases |remaining|
    {
      var future :| future in remaining;
      var taskIndex := futuresToIndex[future];
      results' := results'[taskIndex := Ran(future.Result(run))];
      remaining := remaining - {future};
    }
  }

  /**
   * `run_tasks_with_multiprocessing_executor`: submit every task to `executor`,
   * then wait round after round, writing each finished future's result at the index
   * of the task it was submitted for. A round that finishes nothing while futures are
   * still pending tears the pool down and gives up; the unfinished slots keep 0.0.
   * `stalled` tells which way the loop ended, `rounds` how many waits it made.
   */
  method RunTasksWithMultiprocessingExecutor(
    registry: PoolRegistry, executor: Pool, tasks: seq<string>, timeout: int, run: string -> bool)
    returns (results: seq<TaskResult>, ghost rounds: nat, ghost stalled: bool)
    requires registry.Valid()
    modifies registry
    ensures registry.Valid()
    ensures |results| == |tasks|
    ensures forall i :: 0 <= i < |tasks| ==> results[i] == Unset || results[i] == Ran(run(tasks[i]))
    ensures registry.created == old(registry.created)
    ensures !stalled ==> unchanged(registry)
    ensures !stalled ==> forall i :: 0 <= i < |tasks| ==> results[i] == Ran(run(tasks[i]))
    ensures stalled ==> registry.executor == None && rounds > 0
    ensures stalled ==> old(registry.executor).Some? ==> registry.shutDown == old(registry.shutDown) + [old(registry.executor).value]
    ensures stalled ==> old(registry.executor).None? ==> unchanged(registry)
    ensures stalled ==> exists i :: 0 <= i < |tasks| && results[i] == Unset
    ensures tasks == [] ==> rounds == 0 && !stalled && results == []
  {
    var futuresToIndex, futures := SubmitAll(executor, tasks);
    results := seq(|tasks|, _ => Unset);
    var pending := futuresToIndex.Keys;
    rounds, stalled := 0, false;
    while pending != {}
      invariant pending <= futuresToIndex.Keys
      invariant Collected(results, futures, tasks, pending, run)
      invariant !stalled && unchanged(registry)
      invariant tasks == [] ==> rounds == 0
      decreases |pending|
    {
      var done, notDone := Wait(pending, timeout);
      rounds := rounds + 1;
      if notDone != {} && done == {} {
        registry.CleanupExecutor();
        stalled := true;
        pending := notDone;
        break;
      }
      results := RecordDone(results, done, notDone, futuresToIndex, futures, tasks, run);
      pending := notDone;
    }
    CollectedSlots(results, futuresToIndex, futures, tasks, pending, run);
  }

  /** What `Collected` says slot by slot: each slot is unset or its own task's verdict, and unset exactly for a pending future. */
  lemma {:induction false} CollectedSlots(
    results: seq<TaskResult>, futuresToIndex: map<Future, nat>, futures: seq<Future>, tasks: seq<string>,
    pending: set<Future>, run: string -> bool)
    requires Indexed(futuresToIndex, futures, tasks) && pending <= futuresToIndex.Keys
    requires Collected(results, futures, tasks, pending, run)
    ensures forall i :: 0 <= i < |tasks| ==> results[i] == Unset || results[i] == Ran(run(tasks[i]))
    ensures pending == {} ==> forall i :: 0 <= i < |tasks| ==> results[i] == Ran(run(tasks[i]))
    ensures pending != {} ==> exists i :: 0 <= i < |tasks| && results[i] == Unset
  {
    if pending != {} {
      var f :| f in pending;
      assert results[futuresToIndex[f]] == Unset;
    }
  }
}
