/** The isolation object as one caller sees it: its members changed by the methods and the worker loop. */
module ThreadIsolationWorker {
  import opened ThreadIsolation

  class Isolation {
    var running: bool
    var taskQueue: seq<Task>
    var pendingTasks: int
    var tasksCompleted: bool
    /** The tasks run so far. */
    var executed: seq<Task>

    ghost function View(): Members
      reads this
    {
      Members(running, taskQueue, pendingTasks, tasksCompleted)
    }

    constructor ()
      ensures View() == INIT.m && executed == []
    {
      running, taskQueue, pendingTasks, tasksCompleted, executed := false, [], 0, true, [];
    }

    /** Start and Stop around the creation and the join of the thread. */
    method Start() returns (ret: int)
      modifies this
      ensures ret == if old(running) then -1 else 0
      ensures View() == if old(running) then old(View()) else old(View()).(running := true, tasksCompleted := false)
      ensures executed == old(executed)
    {
      if running {
        return -1;
      }
      running := true;
      tasksCompleted := false;
      ret := 0;
    }

    method Stop()
      modifies this
      ensures View() == old(View()).(running := false) && executed == old(executed)
    {
      if running {
        running := false;
      }
    }

    method PostTask(task: Task)
      modifies this
      ensures View() == if !old(running) then old(View())
                        else Push(old(View()), task).(pendingTasks := old(pendingTasks) + 1, tasksCompleted := false)
      ensures executed == old(executed)
    {
      if !running {
        return;
      }
      taskQueue := taskQueue + [task];
      pendingTasks := pendingTasks + 1;
      tasksCompleted := false;
    }

    /** The loop of ThreadMain up to where it would wait, nobody interfering: the queue is run in order,
        and the flag is set once the counter has come down to zero. */
    method ThreadMain()
      modifies this
      ensures running == old(running)
      ensures !running ==> View() == old(View()) && executed == old(executed)
      ensures running ==>
                var q := old(taskQueue);
                && taskQueue == [] && executed == old(executed) + Callables(q)
                && pendingTasks == old(pendingTasks) - |Callables(q)|
                && (tasksCompleted <==> old(tasksCompleted) || (Callables(q) != [] && pendingTasks <= 0))
    {
      ghost var q, done := taskQueue, [];
      assert Callables(done) == [] && done + taskQueue == q;
      while running && taskQueue != []
        invariant running == old(running) && done + taskQueue == q
        invariant !running ==> View() == old(View()) && executed == old(executed)
        invariant executed == old(executed) + Callables(done)
        invariant pendingTasks == old(pendingTasks) - |Callables(done)|
        invariant tasksCompleted <==> old(tasksCompleted) || (Callables(done) != [] && pendingTasks <= 0)
        decreases |taskQueue|
      {
        var task := taskQueue[0];
        taskQueue := taskQueue[1..];
        Snoc(done, task);
        done := done + [task];
        if task.callable {
          executed := executed + [task];
          pendingTasks := pendingTasks - 1;
          var remainingTasks := pendingTasks;
          if remainingTasks <= 0 && running {
            tasksCompleted := true;
          }
        }
      }
      assert running ==> done == q;
    }
  }
}
