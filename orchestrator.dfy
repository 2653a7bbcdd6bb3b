/** The one synchronous dispatch pass of `Start` in
    internal/orchestrator/orchestrator.go.  The task store and the Gemini
    client are collaborators whose code is not part of this model: the store's
    initialisation and listing are given as their outcomes, the client as a
    function from prompt to reply, and the pass is described by the calls it
    makes into them, in order. */
module Orchestrator {
  import opened Wrappers
  import opened Tasks

  /** A call the pass makes: a prompt to the processor, or a task handed to
      the store's `AddTask` (whose result the pass discards). */
  datatype Call = SendPrompt(prompt: string) | AddTask(task: Task)

  /** How a run ends: stopped by `log.Fatalf`, or after the whole pass. */
  datatype Run = Fatal(message: string) | Finished(calls: seq<Call>)

  /** The external processor: the reply to a prompt, or an error. */
  type Processor = string -> Result<string, string>

  /** The calls the pass makes for one listed task. */
  function TaskCalls(t: Task, process: Processor): seq<Call> {
    if t.status != Pending then []
    else [SendPrompt(t.name)] + (if process(t.name).Ok? then [AddTask(t.(status := Completed))] else [])
  }

  /** The calls the pass makes for a list of tasks, in list order. */
  function PassCalls(tasks: seq<Task>, process: Processor): seq<Call>
    decreases |tasks|
  {
    if tasks == [] then []
    else PassCalls(tasks[..|tasks| - 1], process) + TaskCalls(tasks[|tasks| - 1], process)
  }

  /** `Start`: a failure to open the store or to list it ends the run before
      any prompt is sent; otherwise every listed task is visited once. */
  method Start(storeError: Option<string>, listed: Result<seq<Task>, string>, process: Processor)
    returns (run: Run)
    ensures storeError.Some? ==> run == Fatal("Failed to initialize task storage: " + storeError.value)
    ensures storeError.None? && listed.Err? ==> run == Fatal("Failed to list tasks: " + listed.error)
    ensures storeError.None? && listed.Ok? ==> run == Finished(PassCalls(listed.value, process))
  {
    if storeError.Some? {
      return Fatal("Failed to initialize task storage: " + storeError.value);
    }
    if listed.Err? {
      return Fatal("Failed to list tasks: " + listed.error);
    }
    var tasks := listed.value;
    var calls: seq<Call> := [];
    for i := 0 to |tasks|
      invariant calls == PassCalls(tasks[..i], process)
    {
      assert tasks[..i + 1][..i] == tasks[..i];
      var t := tasks[i];
      if t.status != Pending {
        continue;
      }
      calls := calls + [SendPrompt(t.name)];
      var response := process(t.name);
      if response.Err? {
        continue;
      }
      t := t.(status := Completed);
      calls := calls + [AddTask(t)];
    }
    assert tasks[..|tasks|] == tasks;
    return Finished(calls);
  }

  /** The prompts of a call sequence, in order. */
  function Prompts(calls: seq<Call>): seq<string>
    decreases |calls|
  {
    if calls == [] then []
    else Prompts(calls[..|calls| - 1]) + (if calls[|calls| - 1].SendPrompt? then [calls[|calls| - 1].prompt] else [])
  }

  /** The names of the Pending tasks, in list order. */
  function PendingNames(tasks: seq<Task>): seq<string>
    decreases |tasks|
  {
    if tasks == [] then []
    else
      var last := tasks[|tasks| - 1];
      PendingNames(tasks[..|tasks| - 1]) + (if last.status == Pending then [last.name] else [])
  }

  lemma {:induction false} PromptsAppend(a: seq<Call>, b: seq<Call>)
    ensures Prompts(a + b) == Prompts(a) + Prompts(b)
    decreases |b|
  {
    if b != [] {
      var b' := b[..|b| - 1];
      PromptsAppend(a, b');
      assert (a + b)[..|a + b| - 1] == a + b';
      assert (a + b)[|a + b| - 1] == b[|b| - 1];
    } else {
      assert a + b == a;
    }
  }

  /** The processor is asked once per Pending task, with the task's name, in
      list order, and about nothing else. */
  lemma {:induction false} PromptsArePendingNames(tasks: seq<Task>, process: Processor)
    ensures Prompts(PassCalls(tasks, process)) == PendingNames(tasks)
  {
    if tasks != [] {
      var init, last := tasks[..|tasks| - 1], tasks[|tasks| - 1];
      PromptsArePendingNames(init, process);
      PromptsAppend(PassCalls(init, process), TaskCalls(last, process));
      if last.status == Pending {
        var tail := TaskCalls(last, process);
        assert Prompts([SendPrompt(last.name)]) == [last.name];
        if process(last.name).Ok? {
          assert tail == [SendPrompt(last.name)] + [AddTask(last.(status := Completed))];
          PromptsAppend([SendPrompt(last.name)], [AddTask(last.(status := Completed))]);
          assert Prompts([AddTask(last.(status := Completed))]) == [];
        }
      }
    }
  }

  /** Every task handed to the store is a listed Pending task whose prompt
      succeeded, with only its status changed, to Completed; and the prompt
      for it is the call just before. */
  lemma {:induction false} AddedTasksWereCompleted(tasks: seq<Task>, process: Processor, i: nat)
    requires i < |PassCalls(tasks, process)| && PassCalls(tasks, process)[i].AddTask?
    ensures var added := PassCalls(tasks, process)[i].task;
            && added.status == Completed
            && i > 0 && PassCalls(tasks, process)[i - 1] == SendPrompt(added.name)
            && exists j :: 0 <= j < |tasks| && tasks[j].status == Pending
                           && process(tasks[j].name).Ok? && added == tasks[j].(status := Completed)
  {
    var init, last := tasks[..|tasks| - 1], tasks[|tasks| - 1];
    var before := PassCalls(init, process);
    if i < |before| {
      AddedTasksWereCompleted(init, process, i);
      var added := before[i].task;
      var j :| 0 <= j < |init| && init[j].status == Pending && process(init[j].name).Ok?
               && added == init[j].(status := Completed);
      assert tasks[j] == init[j];
    } else {
      assert PassCalls(tasks, process)[i] == TaskCalls(last, process)[i - |before|];
      assert tasks[|tasks| - 1] == last;
    }
  }

  /** A task whose prompt failed is never handed to the store. */
  lemma {:induction false} FailedPromptsAreNotPersisted(tasks: seq<Task>, process: Processor, t: Task)
    requires process(t.name).Err?
    ensures AddTask(t.(status := Completed)) !in PassCalls(tasks, process)
  {
    if tasks != [] {
      var init, last := tasks[..|tasks| - 1], tasks[|tasks| - 1];
      FailedPromptsAreNotPersisted(init, process, t);
      if last.status == Pending && process(last.name).Ok? {
        assert last.(status := Completed) != t.(status := Completed);
      }
    }
  }

  /** A listed Pending task whose prompt succeeds is handed to the store as
      its Completed copy. */
  lemma {:induction false} SucceededPromptsArePersisted(tasks: seq<Task>, process: Processor, j: nat)
    requires j < |tasks| && tasks[j].status == Pending && process(tasks[j].name).Ok?
    ensures AddTask(tasks[j].(status := Completed)) in PassCalls(tasks, process)
  {
    var init, last := tasks[..|tasks| - 1], tasks[|tasks| - 1];
    if j == |tasks| - 1 {
      assert TaskCalls(last, process)[1] == AddTask(last.(status := Completed));
    } else {
      assert init[j] == tasks[j];
      SucceededPromptsArePersisted(init, process, j);
    }
  }

  /** The tasks of a call sequence handed to `AddTask`, in order. */
  function Added(calls: seq<Call>): seq<Task>
    decreases |calls|
  {
    if calls == [] then []
    else Added(calls[..|calls| - 1]) + (if calls[|calls| - 1].AddTask? then [calls[|calls| - 1].task] else [])
  }

  /** The Completed copies of the Pending tasks whose prompt succeeds, in
      list order. */
  function CompletedCopies(tasks: seq<Task>, process: Processor): seq<Task>
    decreases |tasks|
  {
    if tasks == [] then []
    else
      var last := tasks[|tasks| - 1];
      CompletedCopies(tasks[..|tasks| - 1], process)
      + (if last.status == Pending && process(last.name).Ok? then [last.(status := Completed)] else [])
  }

  lemma {:induction false} AddedAppend(a: seq<Call>, b: seq<Call>)
    ensures Added(a + b) == Added(a) + Added(b)
    decreases |b|
  {
    if b != [] {
      var b' := b[..|b| - 1];
      AddedAppend(a, b');
      assert (a + b)[..|a + b| - 1] == a + b';
      assert (a + b)[|a + b| - 1] == b[|b| - 1];
    } else {
      assert a + b == a;
    }
  }

  /** The store receives exactly the Completed copies of the Pending tasks
      whose prompt succeeded, once each, in list order. */
  lemma {:induction false} AddedAreCompletedCopies(tasks: seq<Task>, process: Processor)
    ensures Added(PassCalls(tasks, process)) == CompletedCopies(tasks, process)
  {
    if tasks != [] {
      var init, last := tasks[..|tasks| - 1], tasks[|tasks| - 1];
      AddedAreCompletedCopies(init, process);
      AddedAppend(PassCalls(init, process), TaskCalls(last, process));
      if last.status == Pending {
        assert Added([SendPrompt(last.name)]) == [];
        if process(last.name).Ok? {
          var done := last.(status := Completed);
          assert TaskCalls(last, process) == [SendPrompt(last.name)] + [AddTask(done)];
          AddedAppend([SendPrompt(last.name)], [AddTask(done)]);
          assert Added([AddTask(done)]) == [done];
        } else {
          assert TaskCalls(last, process) == [SendPrompt(last.name)];
        }
      } else {
        assert TaskCalls(last, process) == [];
      }
    }
  }

  /** The pass over two lists one after the other is the two passes. */
  lemma {:induction false} PassCallsAppend(a: seq<Task>, b: seq<Task>, process: Processor)
    ensures PassCalls(a + b, process) == PassCalls(a, process) + PassCalls(b, process)
    decreases |b|
  {
    if b != [] {
      var b' := b[..|b| - 1];
      PassCallsAppend(a, b', process);
      assert (a + b)[..|a + b| - 1] == a + b';
      assert (a + b)[|a + b| - 1] == b[|b| - 1];
    } else {
      assert a + b == a;
    }
  }

  /** A task that is not Pending plays no part wherever it stands: the pass
      without it makes the same calls. */
  lemma OthersAreSkipped(a: seq<Task>, b: seq<Task>, process: Processor, other: Task)
    requires other.status != Pending
    ensures PassCalls(a + [other] + b, process) == PassCalls(a + b, process)
  {
    PassCallsAppend(a + [other], b, process);
    PassCallsAppend(a, [other], process);
    assert [other][..0] == [];
    assert PassCalls([other], process) == [];
    assert PassCalls(a, process) + [] == PassCalls(a, process);
    PassCallsAppend(a, b, process);
  }
}
