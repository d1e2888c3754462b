/**
 * The sandbox: a guest Python runtime compiled to WebAssembly, loaded once per
 * environment and run on a fresh fuel budget for every snippet. Only what the
 * executors observe is modelled: which environment a process holds, and the
 * pass/fail verdict of a run, which is an oracle `run: string -> bool`.
 */
module Wasm {
  import opened Wrappers

  /**
   * A constructed `PythonWasmEnvironment`: the program image it loaded, the fuel
   * each run is given, and which construction (counted per process) it was.
   */
  datatype Environment = Environment(wasmPath: string, fuel: int, serial: nat)

  /** The module-level `worker_env` of one process, with a count of environments built there. */
  class WorkerSlot {
    var env: Option<Environment>
    var built: nat

    constructor ()
      ensures env == None && built == 0
    {
      env := None;
      built := 0;
    }

    /**
     * `worker_env = PythonWasmEnvironment(wasm_path, fuel)`: build a new environment
     * and install it, replacing whatever the slot held.
     */
    method Install(wasmPath: string, fuel: int)
      modifies this
      ensures env == Some(Environment(wasmPath, fuel, old(built)))
      ensures built == old(built) + 1
    {
      env := Some(Environment(wasmPath, fuel, built));
      built := built + 1;
    }
  }
}
