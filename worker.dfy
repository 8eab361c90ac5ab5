/** The part of a worker process that executes one task. */
module Worker {
  import opened TaskModel

  /** What the worker called on the task besides advancing its state. */
  datatype Call = Executed | AbortCalled

  /** `Worker.execute_task`: advance the task's state once with
      `nextState`, attach the abort event, then run the task's execution
      method (`execute`, whether it is a coroutine or a plain function) if
      the event is not set, or call the task's `abort` if it is. The task
      is returned. */
  method ExecuteTask(task: Task, abortSet: bool, isCoroutine: bool,
                     nextState: Task -> State, execute: Task -> Task, abort: Task -> Task)
    returns (t: Task, calls: seq<Call>)
    ensures var advanced := task.(state := nextState(task), abortAttached := true);
      t == if abortSet then abort(advanced) else execute(advanced)
    ensures calls == if abortSet then [AbortCalled] else [Executed]
  {
    var current := task.(state := nextState(task));
    current := current.(abortAttached := true);
    calls := [];
    if !abortSet {
      if isCoroutine {
        // run_until_complete(func()) on the worker's event loop
        current := execute(current);
      } else {
        current := execute(current);
      }
      calls := calls + [Executed];
    } else {
      current := abort(current);
      calls := calls + [AbortCalled];
    }
    t := current;
  }
}
