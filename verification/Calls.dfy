/** The calls that end or suspend a thread, seen from the whole machine (src/kernel/task.c, src/kernel/syscall.c,
    src/kernel/scheduler/scheduler.c, src/kernel/process/thread.c). */
module Calls {
  import opened Words
  import opened Ownership
  import opened Paging
  import opened Heap
  import opened Scheduling
  import opened Scheduler
  import opened Tasks
  import Processes
  import Threads

  /** One event of the step machine. */
  ghost predicate Stepped(m: Machine, s: Machine, e: Event) {
    Shaped(m) && Enabled(m, e) && s == Step(m, e)
  }

  /** `scheduler_block` keeps the invariant of the whole machine. */
  method Block(tasks: TaskManager, thread: Option<nat>)
    requires tasks.Valid() && (thread.Some? ==> thread.value < THREAD_MAX)
    modifies tasks.scheduler.table.threads
    ensures tasks.Valid() && tasks.Vm().State() == old(tasks.Vm().State())
    ensures if thread.Some?
            then Stepped(old(tasks.scheduler.State()), tasks.scheduler.State(), Event.Block(thread.value))
            else tasks.scheduler.State() == old(tasks.scheduler.State())
  {
    hide AddressSpaces.Valid, Consistent, KernelScheduler.Valid, WithState;
    Lowered(tasks);
    tasks.scheduler.Block(thread);
    tasks.FromScheduler();
  }

  /** `scheduler_unblock` keeps it. */
  method Unblock(tasks: TaskManager, thread: Option<nat>)
    requires tasks.Valid() && (thread.Some? ==> thread.value < THREAD_MAX)
    modifies tasks.scheduler.table.threads
    ensures tasks.Valid() && tasks.Vm().State() == old(tasks.Vm().State())
    ensures if thread.Some?
            then Stepped(old(tasks.scheduler.State()), tasks.scheduler.State(), Event.Unblock(thread.value))
            else tasks.scheduler.State() == old(tasks.scheduler.State())
  {
    hide AddressSpaces.Valid, Consistent, KernelScheduler.Valid, WithState;
    Lowered(tasks);
    tasks.scheduler.Unblock(thread);
    tasks.FromScheduler();
  }

  /** `thread_terminate` keeps it. */
  method Terminate(tasks: TaskManager, thread: Option<nat>)
    requires tasks.Valid() && (thread.Some? ==> thread.value < THREAD_MAX)
    modifies tasks.scheduler.table.threads
    ensures tasks.Valid() && tasks.Vm().State() == old(tasks.Vm().State())
    ensures if thread.Some?
            then Stepped(old(tasks.scheduler.State()), tasks.scheduler.State(), Event.Terminate(thread.value))
            else tasks.scheduler.State() == old(tasks.scheduler.State())
  {
    hide AddressSpaces.Valid, Consistent, KernelScheduler.Valid, WithState;
    Lowered(tasks);
    tasks.scheduler.Terminate(thread);
    tasks.FromScheduler();
  }

  lemma Lowered(tasks: TaskManager)
    requires tasks.Valid()
    ensures tasks.scheduler.Valid() && tasks.scheduler.processes.Valid() && tasks.Apart()
            && WellTyped(tasks.Vm().State())
    ensures Processes.SpacesOwned(tasks.scheduler.processes.processes[..], tasks.Vm().spaces)
    ensures tasks.Vm().Valid() && Shaped(tasks.scheduler.State())
  {
    hide AddressSpaces.Valid;
    tasks.SchedulerValid();
    tasks.ValidSizes();
    ConsistentMeans(tasks.Now(), tasks.Vm().State(), tasks.Vm().kernelDirectory);
  }

  /** `process_terminate` of a process in use keeps it. */
  method TerminateProcess(tasks: TaskManager, process: nat)
    requires tasks.Valid() && process < |tasks.Now().processes| == Processes.PROCESS_MAX
    requires !tasks.Now().processes[process].state.Unused?
    modifies tasks.scheduler.processes.processes
    ensures tasks.Valid() && tasks.Vm().State() == old(tasks.Vm().State())
    ensures tasks.scheduler.State() == old(tasks.scheduler.State())
    ensures tasks.Now().processes ==
            old(tasks.Now()).processes[process := old(tasks.Now()).processes[process].(state := Processes.Terminated)]
  {
    hide AddressSpaces.Valid, Consistent, KernelScheduler.Valid;
    ghost var before, v := tasks.Now(), tasks.Vm().State();
    Lowered(tasks);
    Footprint(tasks.Vm());
    tasks.scheduler.processes.Terminate(Some(process));
    ProcessStopped(before, tasks.Now(), v, tasks.Vm().kernelDirectory, process);
  }

  lemma ProcessStopped(s: Snapshot, t: Snapshot, v: View, kernelDirectory: uint32, p: nat)
    requires Consistent(s, v, kernelDirectory) && p < |s.processes| && !s.processes[p].state.Unused?
    requires t == s.(processes := s.processes[p := s.processes[p].(state := Processes.Terminated)])
    ensures Consistent(t, v, kernelDirectory)
  {
    hide WellLinked, HeapPages, Threads.TableOk, OneRunning;
    StoppedOwns(s.processes, t.processes, v.spaces);
    assert forall q: nat :: q < |s.processes| ==> t.processes[q].space == s.processes[q].space;
  }

  lemma StoppedOwns(ps: seq<Processes.Process>, qs: seq<Processes.Process>, spaces: seq<Space>)
    requires |ps| == |qs| == Processes.PROCESS_MAX && |spaces| == MAX_ADDRESS_SPACES
    requires forall q: nat :: q < |ps| ==> qs[q].space == ps[q].space
    requires Processes.SpacesOwned(ps, spaces)
    ensures Processes.SpacesOwned(qs, spaces)
  {
    forall i: nat | i < MAX_ADDRESS_SPACES && spaces[i].used
      ensures exists p: nat :: Processes.OwnedBy(qs, i, p)
    {
      var p: nat :| Processes.OwnedBy(ps, i, p);
      assert Processes.OwnedBy(qs, i, p);
    }
  }

  lemma ProcessInUse(tasks: TaskManager, i: nat)
    requires tasks.Valid() && i < THREAD_MAX
    ensures tasks.scheduler.table.threads.Length == THREAD_MAX && |tasks.Now().processes| == Processes.PROCESS_MAX
    ensures var process := tasks.scheduler.table.threads[i].process;
            process.Some? ==>
              process.value < Processes.PROCESS_MAX && !tasks.Now().processes[process.value].state.Unused?
  {
    hide AddressSpaces.Valid, OnDirectory, WellLinked, Threads.TableOk;
    ConsistentMeans(tasks.Now(), tasks.Vm().State(), tasks.Vm().kernelDirectory);
  }

  /** Thread c and its process are terminated, and the scheduler has been called. */
  ghost predicate Exited(s: Snapshot, t: Snapshot, c: nat, context: nat, resumed: nat) {
    var m := Machine(s.threads, s.current);
    && Shaped(m) && c < THREAD_MAX && Machine(t.threads, t.current) == Exit(m, c, context)
    && resumed == Resumed(WithState(m, c, Terminated), context)
    && match s.threads[c].process
       case None => t.processes == s.processes
       case Some(p) =>
         && p < |s.processes|
         && t.processes == s.processes[p := s.processes[p].(state := Processes.Terminated)]
  }

  /** `task_exit_syscall` and SYS_EXIT: what the thread table calls the current thread is terminated with its process,
      and the scheduler is called. */
  method ExitSyscall(tasks: TaskManager, context: nat) returns (resumed: nat)
    requires tasks.Valid() && tasks.scheduler.table.current < THREAD_MAX
    modifies tasks.scheduler`current, tasks.scheduler.table.threads, tasks.scheduler.table.heap`headers
    modifies tasks.scheduler.table.heap`blocks, tasks.scheduler.table.heap`used, tasks.Vm()`current
    modifies tasks.scheduler.processes.processes
    ensures tasks.Valid() && tasks.Vm().State() == old(tasks.Vm().State())
    ensures Exited(old(tasks.Now()), tasks.Now(), tasks.scheduler.table.current, context, resumed)
  {
    hide TaskManager.Valid, AddressSpaces.Valid, Schedule;
    var current := tasks.scheduler.table.current;
    Terminate(tasks, Some(current));
    ProcessInUse(tasks, current);
    var process := tasks.scheduler.table.threads[current].process;
    if process.Some? {
      TerminateProcess(tasks, process.value);
    }
    resumed := tasks.Schedule(context);
  }
}
