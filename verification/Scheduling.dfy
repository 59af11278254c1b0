/** The round-robin scheduler as a step machine: one step per call, in any order
    (src/kernel/scheduler/scheduler.c, src/kernel/process/thread.c). */
module Scheduling {
  import opened Words

  const THREAD_MAX: int := 16

  datatype ThreadState = Unused | Ready | Running | Blocked | Terminated

  datatype ThreadKind = KernelThread | UserThread

  /** thread_t; pointers are addresses, process is a slot of the process table. */
  datatype Thread = Thread(
    id: nat, state: ThreadState, process: Option<nat>, esp: nat, kernelStack: nat, entry: nat, argument: nat,
    kind: ThreadKind, userEntry: nat, userStack: nat, switches: uint32, workCounter: uint32)

  /** The thread table and `scheduler_current`. */
  datatype Machine = Machine(threads: seq<Thread>, current: nat)

  predicate Shaped(m: Machine) {
    |m.threads| == THREAD_MAX && m.current < THREAD_MAX && forall i: nat :: i < THREAD_MAX ==> m.threads[i].id == i
  }

  function WithState(m: Machine, i: nat, s: ThreadState): Machine
    requires Shaped(m) && i < THREAD_MAX
  {
    m.(threads := m.threads[i := m.threads[i].(state := s)])
  }

  /** How many steps around the ring lead from one slot to another; a full turn from a slot to itself. */
  function Distance(from: nat, to: nat): (d: nat)
    requires from < THREAD_MAX && to < THREAD_MAX
    ensures 1 <= d <= THREAD_MAX && (from + d) % THREAD_MAX == to
  {
    if to > from then to - from else to + THREAD_MAX - from
  }

  /** The ring scan: the first READY slot at the given distance from start or farther. */
  function NextReady(ts: seq<Thread>, start: nat, offset: nat): (next: Option<nat>)
    requires |ts| == THREAD_MAX && start < THREAD_MAX && 1 <= offset <= THREAD_MAX + 1
    ensures next.Some? ==>
              next.value < THREAD_MAX && ts[next.value].state.Ready? && Distance(start, next.value) >= offset
    ensures forall j: nat :: j < THREAD_MAX && offset <= Distance(start, j) && ts[j].state.Ready? ==>
              next.Some? && Distance(start, next.value) <= Distance(start, j)
    decreases THREAD_MAX + 1 - offset
  {
    if offset > THREAD_MAX then None
    else
      var index := (start + offset) % THREAD_MAX;
      if ts[index].state.Ready? then Some(index) else NextReady(ts, start, offset + 1)
  }

  /** The first lines of `scheduler_schedule`: the context of the interrupted thread is saved. */
  function Save(m: Machine, context: nat): (s: Machine)
    requires Shaped(m)
    ensures Shaped(s) && s.current == m.current
  {
    var t := m.threads[m.current].(esp := context);
    m.(threads := m.threads[m.current := if t.state.Running? then t.(state := Ready) else t])
  }

  function Dispatch(m: Machine, next: nat): (s: Machine)
    requires Shaped(m) && next < THREAD_MAX
    ensures Shaped(s) && s.current == next
  {
    var t := m.threads[next];
    Machine(m.threads[next := t.(state := Running, switches := (t.switches + 1) % TWO_32)], next)
  }

  /** The last lines of `scheduler_schedule`: a terminated thread that is switched away from loses its stack and
      slot. */
  function Reap(m: Machine, previous: nat): (s: Machine)
    requires Shaped(m) && previous < THREAD_MAX
    ensures Shaped(s) && s.current == m.current
  {
    if previous != m.current && m.threads[previous].state.Terminated?
    then m.(threads := m.threads[previous := m.threads[previous].(state := Unused, kernelStack := 0)])
    else m
  }

  /** The switch to the selected slot, or back to the current one if there is none. */
  function Switch(saved: Machine, next: Option<nat>): (s: Machine)
    requires Shaped(saved) && (next.Some? ==> next.value < THREAD_MAX)
    ensures Shaped(s)
  {
    match next
    case None => WithState(saved, saved.current, Running)
    case Some(n) => Reap(Dispatch(saved, n), saved.current)
  }

  /** `scheduler_schedule` without the address space. */
  function Schedule(m: Machine, context: nat): (s: Machine)
    requires Shaped(m)
    ensures Shaped(s)
  {
    if context == 0 then m
    else
      var saved := Save(m, context);
      Switch(saved, NextReady(saved.threads, m.current, 1))
  }

  /** The context pointer that `scheduler_schedule` returns. */
  function Resumed(m: Machine, context: nat): nat
    requires Shaped(m)
  {
    if context == 0 then context
    else
      var saved := Save(m, context);
      match NextReady(saved.threads, m.current, 1)
      case None => context
      case Some(next) => saved.threads[next].esp
  }

  /** The stack that `scheduler_schedule` frees, 0 for none. */
  function FreedStack(m: Machine, context: nat): nat
    requires Shaped(m)
  {
    if context != 0 && Schedule(m, context).current != m.current && m.threads[m.current].state.Terminated?
    then m.threads[m.current].kernelStack else 0
  }

  /** The first unused slot behind slot 0, or THREAD_MAX. */
  function FirstUnused(ts: seq<Thread>, from: nat): (i: nat)
    requires |ts| == THREAD_MAX && from <= THREAD_MAX
    ensures from <= i <= THREAD_MAX && (i < THREAD_MAX ==> ts[i].state.Unused?)
    ensures forall j: nat :: from <= j < i ==> !ts[j].state.Unused?
    decreases THREAD_MAX - from
  {
    if from == THREAD_MAX then from else if ts[from].state.Unused? then from else FirstUnused(ts, from + 1)
  }

  lemma FirstUnusedIs(ts: seq<Thread>, from: nat, i: nat)
    requires |ts| == THREAD_MAX && from <= i <= THREAD_MAX && (i < THREAD_MAX ==> ts[i].state.Unused?)
    requires forall j: nat :: from <= j < i ==> !ts[j].state.Unused?
    ensures FirstUnused(ts, from) == i
  {
  }

  /** One call from outside. Create stands for task creation as a whole: a READY thread with a stack and an initial
      frame in esp goes into the first unused slot behind slot 0. */
  datatype Event =
    | Tick(context: nat)
    | Block(i: nat)
    | Unblock(i: nat)
    | Terminate(i: nat)
    | Create(t: Thread)

  /** A pointer argument names a slot; a new stack is one that no thread has. */
  predicate Enabled(m: Machine, e: Event)
    requires Shaped(m)
  {
    match e
    case Tick(_) => true
    case Block(i) => i < THREAD_MAX
    case Unblock(i) => i < THREAD_MAX
    case Terminate(i) => i < THREAD_MAX
    case Create(t) => t.state.Ready? && t.kernelStack != 0 && !OwnsStack(m, t.kernelStack)
  }

  predicate OwnsStack(m: Machine, stack: nat)
    requires Shaped(m)
  {
    exists i: nat :: i < THREAD_MAX && m.threads[i].kernelStack == stack
  }

  function Step(m: Machine, e: Event): (s: Machine)
    requires Shaped(m) && Enabled(m, e)
    ensures Shaped(s)
  {
    match e
    case Tick(context) => Schedule(m, context)
    case Block(i) => WithState(m, i, Blocked)
    case Unblock(i) => if m.threads[i].state.Blocked? then WithState(m, i, Ready) else m
    case Terminate(i) => WithState(m, i, Terminated)
    case Create(t) =>
      var i := FirstUnused(m.threads, 1);
      if i == THREAD_MAX then m else m.(threads := m.threads[i := t.(id := i)])
  }

  predicate CanRun(m: Machine, es: seq<Event>)
    requires Shaped(m)
    decreases |es|
  {
    es == [] || (Enabled(m, es[0]) && CanRun(Step(m, es[0]), es[1..]))
  }

  function Run(m: Machine, es: seq<Event>): (s: Machine)
    requires Shaped(m) && CanRun(m, es)
    ensures Shaped(s)
    decreases |es|
  {
    if es == [] then m else Run(Step(m, es[0]), es[1..])
  }

  // ---- What every run keeps ----

  /** Only the current thread may be RUNNING. */
  ghost predicate OneRunning(m: Machine)
    requires Shaped(m)
  {
    forall i: nat :: i < THREAD_MAX && m.threads[i].state.Running? ==> i == m.current
  }

  /** Stacks are private, and an unused slot has none. */
  ghost predicate StacksOk(m: Machine)
    requires Shaped(m)
  {
    && (forall i: nat :: i < THREAD_MAX && m.threads[i].state.Unused? ==> m.threads[i].kernelStack == 0)
    && (forall i: nat, j: nat :: i < j < THREAD_MAX && m.threads[i].kernelStack != 0 ==>
          m.threads[i].kernelStack != m.threads[j].kernelStack)
  }

  ghost predicate Ok(m: Machine) {
    Shaped(m) && OneRunning(m) && StacksOk(m)
  }

  lemma StepKeepsRunning(m: Machine, e: Event)
    requires Shaped(m) && OneRunning(m) && Enabled(m, e)
    ensures OneRunning(Step(m, e))
  {
    hide NextReady;
  }

  lemma TickKeepsStacks(m: Machine, context: nat)
    requires Shaped(m) && StacksOk(m)
    ensures StacksOk(Schedule(m, context))
  {
    hide NextReady;
    if context != 0 {
      var saved := Save(m, context);
      SameStacks(m, saved);
      match NextReady(saved.threads, m.current, 1)
      case None => SameStacks(saved, WithState(saved, m.current, Running));
      case Some(next) => SameStacks(saved, Dispatch(saved, next));
    }
  }

  /** Stacks stay private when only other fields change and no slot becomes unused. */
  lemma SameStacks(m: Machine, s: Machine)
    requires Shaped(m) && StacksOk(m) && Shaped(s)
    requires forall i: nat :: i < THREAD_MAX ==> s.threads[i].kernelStack == m.threads[i].kernelStack
                                                  && (s.threads[i].state.Unused? ==> m.threads[i].state.Unused?)
    ensures StacksOk(s)
  {
  }

  lemma CreateKeepsStacks(m: Machine, t: Thread)
    requires Shaped(m) && StacksOk(m) && Enabled(m, Create(t))
    ensures StacksOk(Step(m, Create(t)))
  {
    var s := Step(m, Create(t));
    assert forall i: nat :: i < THREAD_MAX ==> m.threads[i].kernelStack != t.kernelStack;
    hide FirstUnused, OwnsStack;
    forall i: nat, j: nat | i < j < THREAD_MAX && s.threads[i].kernelStack != 0
      ensures s.threads[i].kernelStack != s.threads[j].kernelStack
    {
      assert m.threads[i].kernelStack == s.threads[i].kernelStack
             || m.threads[j].kernelStack == s.threads[j].kernelStack;
    }
  }

  lemma StepKeepsStacks(m: Machine, e: Event)
    requires Shaped(m) && StacksOk(m) && Enabled(m, e)
    ensures StacksOk(Step(m, e))
  {
    hide Schedule;
    match e
    case Tick(context) => TickKeepsStacks(m, context);
    case Create(t) => CreateKeepsStacks(m, t);
    case _ => SameStacks(m, Step(m, e));
  }

  lemma StepKeepsOk(m: Machine, e: Event)
    requires Ok(m) && Enabled(m, e)
    ensures Ok(Step(m, e))
  {
    hide Step;
    StepKeepsRunning(m, e);
    StepKeepsStacks(m, e);
  }

  /** Whatever happens, in every reachable state only the current thread may be RUNNING, stacks are private and unused
      slots own none. */
  lemma {:induction false} RunKeepsOk(m: Machine, es: seq<Event>)
    requires Ok(m) && CanRun(m, es)
    ensures Ok(Run(m, es))
    decreases |es|
  {
    if es == [] {
    } else {
      StepKeepsOk(m, es[0]);
      RunKeepsOk(Step(m, es[0]), es[1..]);
    }
  }

  /** After a call of the scheduler exactly one thread is RUNNING: the current one. */
  lemma TickRunsOne(m: Machine, context: nat)
    requires Ok(m) && context != 0
    ensures var s := Schedule(m, context);
            forall i: nat :: i < THREAD_MAX ==> (s.threads[i].state.Running? <==> i == s.current)
  {
  }

  /** Some thread can run: one is READY or the current one is still RUNNING. */
  ghost predicate Runnable(m: Machine)
    requires Shaped(m)
  {
    m.threads[m.current].state.Running? || exists i: nat :: i < THREAD_MAX && m.threads[i].state.Ready?
  }

  /** The scheduler resumes only threads that may run if and only if there is one; otherwise the current thread
      goes on, even when it is BLOCKED or TERMINATED. */
  lemma ResumesRunnable(m: Machine, context: nat)
    requires Ok(m) && context != 0
    ensures var s := Schedule(m, context);
            && (Runnable(m) <==> m.threads[s.current].state.Ready? || m.threads[s.current].state.Running?)
            && (!Runnable(m) ==> s.current == m.current)
  {
    var saved := Save(m, context);
    if i: nat :| i < THREAD_MAX && m.threads[i].state.Ready? {
      assert saved.threads[i].state.Ready? && Distance(m.current, i) >= 1;
    } else if m.threads[m.current].state.Running? {
      assert saved.threads[m.current].state.Ready? && Distance(m.current, m.current) >= 1;
    }
  }

  /** What a call of the scheduler that selects slot n does to the thread in slot i: the selected thread is RUNNING; the
      one that is left is READY if it was RUNNING, gives up slot and stack if it was TERMINATED, and otherwise keeps its
      state; the context goes to the thread that was interrupted. */
  ghost predicate Ticked(m: Machine, context: nat, n: nat, i: nat, u: Thread)
    requires Shaped(m) && i < THREAD_MAX
  {
    var t, left := m.threads[i], i == m.current && i != n;
    && u.state == (if i == n then Running
                   else if left && t.state.Running? then Ready
                   else if left && t.state.Terminated? then Unused
                   else t.state)
    && u.esp == (if i == m.current then context else t.esp)
    && u.kernelStack == (if left && t.state.Terminated? then 0 else t.kernelStack)
    && u.switches == (if i == n && Runnable(m) then (t.switches + 1) % TWO_32 else t.switches)
    && u == t.(state := u.state, esp := u.esp, kernelStack := u.kernelStack, switches := u.switches)
  }

  /** A call of the scheduler selects the nearest thread behind the current one that can run, the current one last, or
      stays if there is none. */
  lemma TickDoes(m: Machine, context: nat)
    requires Ok(m) && context != 0
    ensures var s := Schedule(m, context);
            && (!Runnable(m) ==> s.current == m.current)
            && (Runnable(m) ==> Alive(m.threads[s.current]))
            && (forall j: nat :: j < THREAD_MAX && Alive(m.threads[j]) ==>
                  Distance(m.current, s.current) <= Distance(m.current, j))
            && forall i: nat :: i < THREAD_MAX ==> Ticked(m, context, s.current, i, s.threads[i])
  {
    var saved := Save(m, context);
    SavedAlive(m, context);
    match NextReady(saved.threads, m.current, 1) {
      case None => StaysOn(m, context);
      case Some(n) => SwitchesTo(m, context, n);
    }
    hide *;
  }

  lemma SavedAlive(m: Machine, context: nat)
    requires Ok(m) && context != 0
    ensures forall j: nat :: j < THREAD_MAX ==> (Save(m, context).threads[j].state.Ready? <==> Alive(m.threads[j]))
    ensures Runnable(m) <==> exists j: nat :: j < THREAD_MAX && Alive(m.threads[j])
  {
    hide StacksOk;
  }

  lemma StaysOn(m: Machine, context: nat)
    requires Ok(m) && context != 0 && NextReady(Save(m, context).threads, m.current, 1).None?
    ensures var s := Schedule(m, context);
            s.current == m.current && !Runnable(m) && (forall j: nat :: j < THREAD_MAX ==> !Alive(m.threads[j]))
            && forall i: nat :: i < THREAD_MAX ==> Ticked(m, context, s.current, i, s.threads[i])
  {
    SavedAlive(m, context);
    hide StacksOk, OneRunning, Runnable;
    assert forall j: nat :: j < THREAD_MAX ==> 1 <= Distance(m.current, j);
    hide NextReady;
  }

  lemma SwitchesTo(m: Machine, context: nat, n: nat)
    requires Ok(m) && context != 0 && NextReady(Save(m, context).threads, m.current, 1) == Some(n)
    ensures var s := Schedule(m, context);
            && s.current == n && Runnable(m) && Alive(m.threads[n])
            && (forall j: nat :: j < THREAD_MAX && Alive(m.threads[j]) ==>
                  Distance(m.current, n) <= Distance(m.current, j))
            && forall i: nat :: i < THREAD_MAX ==> Ticked(m, context, n, i, s.threads[i])
  {
    SavedAlive(m, context);
    hide StacksOk, OneRunning, Runnable;
    assert forall j: nat :: j < THREAD_MAX ==> 1 <= Distance(m.current, j);
    hide NextReady, Distance, Save, Switch, Ticked;
    forall i: nat | i < THREAD_MAX
      ensures Ticked(m, context, n, i, Schedule(m, context).threads[i])
    {
      SwitchedThread(m, context, n, i);
    }
  }

  lemma SwitchedThread(m: Machine, context: nat, n: nat, i: nat)
    requires Shaped(m) && n < THREAD_MAX && i < THREAD_MAX && Runnable(m) && Alive(m.threads[n])
    ensures Switch(Save(m, context), Some(n)).current == n
    ensures Ticked(m, context, n, i, Switch(Save(m, context), Some(n)).threads[i])
  {
    hide Runnable;
  }

  // ---- Blocked threads ----

  /** The event does not unblock or terminate thread i. */
  predicate LeavesBlocked(e: Event, i: nat) {
    e != Unblock(i) && e != Terminate(i)
  }

  /** In the course of the run thread i stops being BLOCKED. */
  predicate Wakes(m: Machine, es: seq<Event>, i: nat)
    requires Shaped(m) && CanRun(m, es) && i < THREAD_MAX
    decreases |es|
  {
    es != [] && (!Step(m, es[0]).threads[i].state.Blocked? || Wakes(Step(m, es[0]), es[1..], i))
  }

  /** In the course of the run the scheduler is called while thread i is current and no thread can run. */
  ghost predicate IdleOn(m: Machine, es: seq<Event>, i: nat)
    requires Shaped(m) && CanRun(m, es)
    decreases |es|
  {
    es != [] && ((IsTick(es[0]) && m.current == i && !Runnable(m)) || IdleOn(Step(m, es[0]), es[1..], i))
  }

  /** Some thread can run whenever the scheduler is called. */
  ghost predicate NeverIdle(m: Machine, es: seq<Event>)
    requires Shaped(m) && CanRun(m, es)
    decreases |es|
  {
    es == [] || ((IsTick(es[0]) ==> Runnable(m)) && NeverIdle(Step(m, es[0]), es[1..]))
  }

  /** One event that does not wake or end a BLOCKED thread. */
  lemma BlockedStep(m: Machine, e: Event, i: nat)
    requires Ok(m) && Enabled(m, e) && i < THREAD_MAX && m.threads[i].state.Blocked?
    requires LeavesBlocked(e, i)
    ensures Step(m, e).threads[i].state.Blocked? <==> !(IsTick(e) && m.current == i && !Runnable(m))
    ensures IsTick(e) && Step(m, e).current == i ==> m.current == i && !Runnable(m)
  {
    if IsTick(e) {
      TickDoes(m, e.context);
      hide Schedule, StacksOk;
    }
  }

  /** A BLOCKED thread that nobody unblocks or terminates runs again if and only if the scheduler is called at a time
      when that thread is current and no thread can run. */
  lemma {:induction false} WakesExactly(m: Machine, es: seq<Event>, i: nat)
    requires Ok(m) && CanRun(m, es) && i < THREAD_MAX && m.threads[i].state.Blocked?
    requires forall e :: e in es ==> LeavesBlocked(e, i)
    ensures Wakes(m, es, i) <==> IdleOn(m, es, i)
    decreases |es|
  {
    if es == [] {
    } else {
      assert LeavesBlocked(es[0], i);
      StepKeepsOk(m, es[0]);
      BlockedStep(m, es[0], i);
      hide Step;
      if Step(m, es[0]).threads[i].state.Blocked? {
        WakesExactly(Step(m, es[0]), es[1..], i);
      }
    }
  }

  /** As long as some thread can run whenever the scheduler is called, it stays BLOCKED and is never selected. */
  lemma {:induction false} BlockedStays(m: Machine, es: seq<Event>, i: nat)
    requires Ok(m) && CanRun(m, es) && i < THREAD_MAX && m.threads[i].state.Blocked? && NeverIdle(m, es)
    requires forall e :: e in es ==> LeavesBlocked(e, i)
    ensures Run(m, es).threads[i].state.Blocked? && i !in Selected(m, es)
    decreases |es|
  {
    if es == [] {
    } else {
      assert LeavesBlocked(es[0], i);
      StepKeepsOk(m, es[0]);
      BlockedStep(m, es[0], i);
      hide Step;
      BlockedStays(Step(m, es[0]), es[1..], i);
    }
  }

  /** The calls from outside change the named thread's state, and nothing else. */
  lemma NamedOnly(m: Machine, e: Event, i: nat)
    requires Shaped(m) && Enabled(m, e) && i < THREAD_MAX && !e.Tick? && !e.Create?
    ensures var s := Step(m, e);
            && s.current == m.current && s.threads[i] == m.threads[i].(state := s.threads[i].state)
            && (e == Block(i) ==> s.threads[i].state.Blocked?)
            && (e == Terminate(i) ==> s.threads[i].state.Terminated?)
            && (e == Unblock(i) ==>
                  (s.threads[i].state.Ready? <==> m.threads[i].state.Ready? || m.threads[i].state.Blocked?))
            && (Ignores(e, i) || (e == Unblock(i) && !m.threads[i].state.Blocked?) ==> s.threads[i] == m.threads[i])
  {
  }

  // ---- Bounded waiting ----

  /** The event leaves thread t alone. */
  predicate Spares(e: Event, t: nat) {
    e != Block(t) && e != Terminate(t)
  }

  /** The threads that the calls of the scheduler select, one after the other. */
  function Selected(m: Machine, es: seq<Event>): seq<nat>
    requires Shaped(m) && CanRun(m, es)
    decreases |es|
  {
    if es == [] then []
    else
      var s := Step(m, es[0]);
      (if es[0].Tick? && es[0].context != 0 then [s.current] else []) + Selected(s, es[1..])
  }

  /** A call of the scheduler selects t, or moves strictly nearer to it and leaves it READY. */
  lemma TickNears(m: Machine, context: nat, t: nat)
    requires Ok(m) && context != 0 && t < THREAD_MAX && m.threads[t].state.Ready?
    ensures var s := Schedule(m, context);
            s.current != t ==> s.threads[t].state.Ready? && Distance(m.current, s.current) < Distance(m.current, t)
  {
    var saved := Save(m, context);
    assert saved.threads[t].state.Ready? && 1 <= Distance(m.current, t);
  }

  /** Distances add up along the ring. */
  lemma DistanceAdds(a: nat, b: nat, c: nat)
    requires a < THREAD_MAX && b < THREAD_MAX && c < THREAD_MAX
    ensures Distance(a, b) < Distance(a, c) ==> Distance(a, c) == Distance(a, b) + Distance(b, c)
    ensures Distance(a, b) + Distance(b, c) <= THREAD_MAX ==> Distance(a, c) == Distance(a, b) + Distance(b, c)
  {
  }

  /** The slots come one after the other on the way around the ring from start, all before the given distance. */
  ghost predicate Approaches(start: nat, xs: seq<nat>, limit: nat)
    requires start < THREAD_MAX
  {
    && (forall k: nat :: k < |xs| ==> xs[k] < THREAD_MAX && Distance(start, xs[k]) < limit)
    && (forall j: nat, k: nat :: j < k < |xs| ==> Distance(start, xs[j]) < Distance(start, xs[k]))
  }

  lemma ApproachesNext(start: nat, next: nat, xs: seq<nat>, t: nat)
    requires start < THREAD_MAX && next < THREAD_MAX && t < THREAD_MAX && Distance(start, next) < Distance(start, t)
    requires Approaches(next, xs, Distance(next, t))
    ensures Approaches(start, [next] + xs, Distance(start, t))
  {
    var ys := [next] + xs;
    DistanceAdds(start, next, t);
    forall k: nat | 0 < k < |ys|
      ensures ys[k] < THREAD_MAX && Distance(start, ys[k]) == Distance(start, next) + Distance(next, ys[k])
      ensures Distance(start, ys[k]) < Distance(start, t)
    {
      assert ys[k] == xs[k - 1];
      DistanceAdds(start, next, ys[k]);
    }
    forall j: nat, k: nat | j < k < |ys|
      ensures Distance(start, ys[j]) < Distance(start, ys[k])
    {
      assert ys[k] == xs[k - 1];
      if j > 0 {
        assert ys[j] == xs[j - 1];
      }
    }
  }

  /** Strictly increasing distances leave room for few slots. */
  lemma {:induction false} FewOnTheWay(start: nat, xs: seq<nat>, limit: nat)
    requires start < THREAD_MAX && Approaches(start, xs, limit)
    ensures |xs| == 0 || |xs| <= Distance(start, xs[|xs| - 1]) < limit
  {
    if |xs| <= 1 {
    } else {
      FewOnTheWay(start, xs[..|xs| - 1], limit);
      assert xs[..|xs| - 1][|xs| - 2] == xs[|xs| - 2];
    }
  }

  /** As long as t is READY and has not been selected, every selection lies between the current thread and t. */
  lemma {:induction false} Waiting(m: Machine, es: seq<Event>, t: nat)
    requires Ok(m) && CanRun(m, es) && t < THREAD_MAX && m.threads[t].state.Ready?
    requires forall e :: e in es ==> Spares(e, t)
    requires t !in Selected(m, es)
    ensures Run(m, es).threads[t].state.Ready?
    ensures Approaches(m.current, Selected(m, es), Distance(m.current, t))
    decreases |es|
  {
    if es != [] {
      var e, s, rest := es[0], Step(m, es[0]), es[1..];
      StepKeepsOk(m, e);
      assert Spares(e, t);
      if e.Tick? && e.context != 0 {
        assert Selected(m, es)[0] == s.current;
        TickNears(m, e.context, t);
        assert forall x :: x in Selected(s, rest) ==> x in Selected(m, es);
        Waiting(s, rest, t);
        ApproachesNext(m.current, s.current, Selected(s, rest), t);
      } else {
        assert Selected(m, es) == Selected(s, rest);
        assert s.threads[t].state.Ready? && s.current == m.current;
        Waiting(s, rest, t);
      }
    }
  }

  /** Bounded waiting: a READY thread that nobody blocks or terminates is selected within 16 calls of the scheduler,
      whatever else happens in between, and until then no other thread is selected twice. */
  lemma BoundedWaiting(m: Machine, es: seq<Event>, t: nat)
    requires Ok(m) && CanRun(m, es) && t < THREAD_MAX && m.threads[t].state.Ready?
    requires forall e :: e in es ==> Spares(e, t)
    ensures |Selected(m, es)| >= THREAD_MAX ==> t in Selected(m, es)
    ensures t !in Selected(m, es) ==>
              forall j: nat, k: nat :: j < k < |Selected(m, es)| ==> Selected(m, es)[j] != Selected(m, es)[k]
  {
    if t !in Selected(m, es) {
      Waiting(m, es, t);
      FewOnTheWay(m.current, Selected(m, es), Distance(m.current, t));
    }
  }

  // ---- Saved contexts ----

  lemma {:induction false} RunSplit(m: Machine, es: seq<Event>, e: Event)
    requires Shaped(m) && CanRun(m, es + [e])
    ensures CanRun(m, es) && Enabled(Run(m, es), e) && Run(m, es + [e]) == Step(Run(m, es), e)
    decreases |es|
  {
    if es == [] {
      assert ([] + [e])[1..] == [];
    } else {
      assert (es + [e])[1..] == es[1..] + [e];
      RunSplit(Step(m, es[0]), es[1..], e);
    }
  }

  /** What the history says about thread i: the context with which it was interrupted last, or the frame it was created
      with, or what it started with. */
  ghost function LastContext(m: Machine, es: seq<Event>, i: nat): nat
    requires Shaped(m) && CanRun(m, es) && i < THREAD_MAX
    decreases |es|
  {
    if es == [] then m.threads[i].esp
    else
      var before, e := es[..|es| - 1], es[|es| - 1];
      assert es == before + [e];
      RunSplit(m, before, e);
      var s := Run(m, before);
      if e.Tick? && e.context != 0 && s.current == i then e.context
      else if e.Create? && FirstUnused(s.threads, 1) == i then e.t.esp
      else LastContext(m, before, i)
  }

  /** What one event does to the saved context of thread i. */
  lemma StepContext(m: Machine, e: Event, i: nat)
    requires Shaped(m) && Enabled(m, e) && i < THREAD_MAX
    ensures Step(m, e).threads[i].esp ==
            if e.Tick? && e.context != 0 && m.current == i then e.context
            else if e.Create? && FirstUnused(m.threads, 1) == i then e.t.esp
            else m.threads[i].esp
    ensures e.Tick? && e.context != 0 ==> Resumed(m, e.context) == Step(m, e).threads[Step(m, e).current].esp
  {
    hide NextReady;
  }

  lemma {:induction false} SavedContexts(m: Machine, es: seq<Event>, i: nat)
    requires Shaped(m) && CanRun(m, es) && i < THREAD_MAX
    ensures Run(m, es).threads[i].esp == LastContext(m, es, i)
    decreases |es|
  {
    hide Step, Enabled, Shaped;
    if es == [] {
    } else {
      var before, e := es[..|es| - 1], es[|es| - 1];
      assert es == before + [e];
      RunSplit(m, before, e);
      SavedContexts(m, before, i);
      StepContext(Run(m, before), e, i);
    }
  }

  /** Round trip over every run: the context that the scheduler resumes is the one with which the selected thread was
      interrupted last, or its initial frame. */
  lemma ResumesSavedContext(m: Machine, es: seq<Event>, context: nat)
    requires Shaped(m) && CanRun(m, es + [Tick(context)]) && context != 0
    ensures CanRun(m, es)
    ensures Resumed(Run(m, es), context) == LastContext(m, es + [Tick(context)], Run(m, es + [Tick(context)]).current)
  {
    var e := Tick(context);
    RunSplit(m, es, e);
    hide Step, Resumed, Run, LastContext;
    var s := Run(m, es);
    SavedContexts(m, es + [e], Step(s, e).current);
    StepContext(s, e, 0);
  }

  // ---- Stacks over runs ----

  function One(b: bool): nat {
    if b then 1 else 0
  }

  /** The number of threads that own the stack. */
  function Owners(ts: seq<Thread>, stack: nat): nat {
    if ts == [] then 0 else One(ts[0].kernelStack == stack) + Owners(ts[1..], stack)
  }

  lemma {:induction false} OwnerReplaced(ts: seq<Thread>, i: nat, t: Thread, stack: nat)
    requires i < |ts|
    ensures Owners(ts[i := t], stack) + One(ts[i].kernelStack == stack) ==
              Owners(ts, stack) + One(t.kernelStack == stack)
  {
    if i == 0 {
      assert ts[i := t][1..] == ts[1..];
    } else {
      assert ts[i := t][1..] == ts[1..][i - 1 := t];
      OwnerReplaced(ts[1..], i - 1, t, stack);
    }
  }

  lemma TickOwners(m: Machine, context: nat, stack: nat)
    requires Ok(m) && stack != 0
    ensures Owners(m.threads, stack) ==
              Owners(Schedule(m, context).threads, stack) + One(FreedStack(m, context) == stack)
  {
    assert Shaped(m);
    hide Ok, NextReady;
    if context != 0 {
      var saved := Save(m, context);
      OwnerReplaced(m.threads, m.current, saved.threads[m.current], stack);
      match NextReady(saved.threads, m.current, 1)
      case None => OwnerReplaced(saved.threads, m.current, saved.threads[m.current].(state := Running), stack);
      case Some(next) =>
        var d := Dispatch(saved, next);
        OwnerReplaced(saved.threads, next, d.threads[next], stack);
        if m.current != next && d.threads[m.current].state.Terminated? {
          OwnerReplaced(d.threads, m.current, d.threads[m.current].(state := Unused, kernelStack := 0), stack);
        }
    }
  }

  /** The event gives the stack to a new thread. */
  predicate BringsIn(m: Machine, e: Event, stack: nat)
    requires Shaped(m) && Enabled(m, e)
  {
    e.Create? && e.t.kernelStack == stack && FirstUnused(m.threads, 1) < THREAD_MAX
  }

  /** The event frees the stack. */
  predicate Frees(m: Machine, e: Event, stack: nat)
    requires Shaped(m) && Enabled(m, e)
  {
    e.Tick? && FreedStack(m, e.context) == stack
  }

  lemma StepOwners(m: Machine, e: Event, stack: nat)
    requires Ok(m) && Enabled(m, e) && stack != 0
    ensures Owners(m.threads, stack) + One(BringsIn(m, e, stack)) ==
            Owners(Step(m, e).threads, stack) + One(Frees(m, e, stack))
  {
    hide Schedule, FreedStack;
    match e
    case Tick(context) => TickOwners(m, context, stack);
    case Block(i) => OwnerReplaced(m.threads, i, m.threads[i].(state := Blocked), stack);
    case Unblock(i) => OwnerReplaced(m.threads, i, m.threads[i].(state := Ready), stack);
    case Terminate(i) => OwnerReplaced(m.threads, i, m.threads[i].(state := Terminated), stack);
    case Create(t) =>
      var i := FirstUnused(m.threads, 1);
      if i < THREAD_MAX {
        assert m.threads[i].kernelStack == 0;
        OwnerReplaced(m.threads, i, t.(id := i), stack);
      }
  }

  /** How many events of the run give the stack to a new thread. */
  function TimesIn(m: Machine, es: seq<Event>, stack: nat): nat
    requires Shaped(m) && CanRun(m, es)
    decreases |es|
  {
    if es == [] then 0 else One(BringsIn(m, es[0], stack)) + TimesIn(Step(m, es[0]), es[1..], stack)
  }

  /** How many events of the run free the stack. */
  function TimesFreed(m: Machine, es: seq<Event>, stack: nat): nat
    requires Shaped(m) && CanRun(m, es)
    decreases |es|
  {
    if es == [] then 0 else One(Frees(m, es[0], stack)) + TimesFreed(Step(m, es[0]), es[1..], stack)
  }

  /** Conservation over every run: each time a stack comes in it is freed once, or is still owned by one thread. */
  lemma {:induction false} StackConservation(m: Machine, es: seq<Event>, stack: nat)
    requires Ok(m) && CanRun(m, es) && stack != 0
    ensures Owners(m.threads, stack) + TimesIn(m, es, stack) ==
            Owners(Run(m, es).threads, stack) + TimesFreed(m, es, stack)
    ensures Owners(Run(m, es).threads, stack) <= 1
    decreases |es|
  {
    if es == [] {
      OneOwner(m.threads, stack);
    } else {
      hide BringsIn, Frees, Step, Ok, Owners;
      StepKeepsOk(m, es[0]);
      StepOwners(m, es[0], stack);
      StackConservation(Step(m, es[0]), es[1..], stack);
    }
  }

  lemma {:induction false} OneOwner(ts: seq<Thread>, stack: nat)
    requires forall i: nat, j: nat :: i < j < |ts| ==> ts[i].kernelStack != stack || ts[j].kernelStack != stack
    ensures Owners(ts, stack) <= 1
    ensures Owners(ts, stack) == 1 <==> exists i: nat :: i < |ts| && ts[i].kernelStack == stack
  {
    if ts != [] {
      forall i: nat, j: nat | i < j < |ts[1..]|
        ensures ts[1..][i].kernelStack != stack || ts[1..][j].kernelStack != stack
      {
        assert ts[i + 1] == ts[1..][i] && ts[j + 1] == ts[1..][j];
      }
      OneOwner(ts[1..], stack);
      if i: nat :| i < |ts| && ts[i].kernelStack == stack {
        if i > 0 {
          assert ts[1..][i - 1].kernelStack == stack;
        }
      }
      if ts[0].kernelStack != stack && Owners(ts[1..], stack) == 1 {
        var i: nat :| i < |ts[1..]| && ts[1..][i].kernelStack == stack;
        assert ts[i + 1].kernelStack == stack;
      }
      if ts[0].kernelStack == stack {
        forall i: nat | i < |ts[1..]|
          ensures ts[1..][i].kernelStack != stack
        {
          assert ts[1..][i] == ts[i + 1];
        }
      }
    }
  }

  /** A freed stack belonged to the TERMINATED thread that is switched away from, and to no thread afterwards, least of
      all to the selected one. */
  lemma FreesOnlyTheDead(m: Machine, context: nat)
    requires Ok(m) && FreedStack(m, context) != 0
    ensures var s := Schedule(m, context);
            && m.threads[m.current].state.Terminated? && FreedStack(m, context) == m.threads[m.current].kernelStack
            && s.current != m.current && s.threads[m.current].state.Unused? && !OwnsStack(s, FreedStack(m, context))
  {
  }

  /** The event does not name thread i. */
  predicate Ignores(e: Event, i: nat) {
    e != Block(i) && e != Unblock(i) && e != Terminate(i)
  }

  /** A thread that is terminated while another one is current is never reaped: its slot and its stack are lost, until
      somebody blocks and unblocks it. */
  lemma {:induction false} ZombieStays(m: Machine, es: seq<Event>, i: nat)
    requires Ok(m) && CanRun(m, es) && i < THREAD_MAX && i != m.current && m.threads[i].state.Terminated?
    requires forall e :: e in es ==> Ignores(e, i)
    ensures var s := Run(m, es);
            i != s.current && s.threads[i].state.Terminated? && s.threads[i].kernelStack == m.threads[i].kernelStack
    decreases |es|
  {
    if es == [] {
    } else {
      assert Ignores(es[0], i);
      StepKeepsOk(m, es[0]);
      ZombieStep(m, es[0], i);
      hide Step, Ok;
      ZombieStays(Step(m, es[0]), es[1..], i);
    }
  }

  lemma ZombieStep(m: Machine, e: Event, i: nat)
    requires Ok(m) && Enabled(m, e) && i < THREAD_MAX && i != m.current && m.threads[i].state.Terminated?
    requires Ignores(e, i)
    ensures var s := Step(m, e);
            i != s.current && s.threads[i].state.Terminated? && s.threads[i].kernelStack == m.threads[i].kernelStack
  {
    hide NextReady, StacksOk, OneRunning;
  }

  // ---- Reaping ----

  /** A call of the scheduler that is not ignored. */
  predicate IsTick(e: Event) {
    e.Tick? && e.context != 0
  }

  ghost predicate SomeReady(m: Machine)
    requires Shaped(m)
  {
    exists j: nat :: j < THREAD_MAX && m.threads[j].state.Ready?
  }

  /** What one event does to a TERMINATED thread that it does not name: a call of the scheduler gives its stack and slot
      back exactly if it is the current one and another one is READY; if it is the current one and none is READY, it
      runs again; otherwise nothing happens to it. */
  lemma TerminatedStep(m: Machine, e: Event, i: nat)
    requires Ok(m) && Enabled(m, e) && i < THREAD_MAX && m.threads[i].state.Terminated? && Ignores(e, i)
    ensures var t := Step(m, e).threads[i];
            if IsTick(e) && i == m.current && SomeReady(m)
            then t.state.Unused? && t.kernelStack == 0 && FreedStack(m, e.context) == m.threads[i].kernelStack
            else t.kernelStack == m.threads[i].kernelStack
                 && if IsTick(e) && i == m.current then t.state.Running? else t.state.Terminated?
    ensures !(i == m.current && SomeReady(m)) && e.Tick? && m.threads[i].kernelStack != 0 ==>
              FreedStack(m, e.context) != m.threads[i].kernelStack
  {
    hide NextReady, OneRunning;
    if IsTick(e) {
      SavedReady(m, e.context, i);
    }
  }

  /** When the current thread is TERMINATED, saving its context makes no thread READY and keeps those that are. */
  lemma SavedReady(m: Machine, context: nat, i: nat)
    requires Ok(m) && i < THREAD_MAX && m.threads[i].state.Terminated? && context != 0
    ensures var saved := Save(m, context);
            && (forall j: nat :: j < THREAD_MAX && m.threads[j].state.Ready? ==>
                  saved.threads[j].state.Ready? && 1 <= Distance(m.current, j))
            && (i == m.current ==>
                  forall j: nat :: j < THREAD_MAX && saved.threads[j].state.Ready? ==> m.threads[j].state.Ready?)
  {
  }

  /** In the course of the run the slot of the TERMINATED thread is given back, before the thread has run again. */
  predicate Reclaimed(m: Machine, es: seq<Event>, i: nat)
    requires Shaped(m) && CanRun(m, es) && i < THREAD_MAX
    decreases |es|
  {
    es != [] && m.threads[i].state.Terminated?
    && (Step(m, es[0]).threads[i].state.Unused? || Reclaimed(Step(m, es[0]), es[1..], i))
  }

  /** The first call of the scheduler in the run finds a READY thread. */
  ghost predicate FirstTickFindsReady(m: Machine, es: seq<Event>)
    requires Shaped(m) && CanRun(m, es)
    decreases |es|
  {
    es != [] && if IsTick(es[0]) then SomeReady(m) else FirstTickFindsReady(Step(m, es[0]), es[1..])
  }

  /** Reaping is exact: a TERMINATED thread's slot and stack come back if and only if it is the current thread and the
      next call of the scheduler finds another one READY. */
  lemma {:induction false} ReclaimedExactly(m: Machine, es: seq<Event>, i: nat)
    requires Ok(m) && CanRun(m, es) && i < THREAD_MAX && m.threads[i].state.Terminated?
    requires forall e :: e in es ==> Ignores(e, i)
    ensures Reclaimed(m, es, i) <==> i == m.current && FirstTickFindsReady(m, es)
    decreases |es|
  {
    if es == [] {
    } else {
      var e, s := es[0], Step(m, es[0]);
      assert Ignores(e, i);
      StepKeepsOk(m, e);
      TerminatedStep(m, e, i);
      hide Step, Ok, Enabled;
      if s.threads[i].state.Terminated? {
        TerminatedStays(m, e, i);
        ReclaimedExactly(s, es[1..], i);
      }
    }
  }

  /** Only a call of the scheduler changes the current thread. */
  lemma TerminatedStays(m: Machine, e: Event, i: nat)
    requires Ok(m) && Enabled(m, e) && i < THREAD_MAX && m.threads[i].state.Terminated?
    ensures !IsTick(e) ==> Step(m, e).current == m.current
    ensures IsTick(e) && i != m.current ==> Step(m, e).current != i
  {
  }

  // ---- SYS_EXIT ----

  /** What SYS_EXIT does when the thread table says that thread c is the current one: c is terminated, and the scheduler
      is called with the context of the caller, which is the thread that the scheduler runs. */
  function Exit(m: Machine, c: nat, context: nat): (s: Machine)
    requires Shaped(m) && c < THREAD_MAX
    ensures Shaped(s)
  {
    Schedule(WithState(m, c, Terminated), context)
  }

  /** For the step machine it is two events. */
  lemma ExitIsTwoEvents(m: Machine, c: nat, context: nat)
    requires Shaped(m) && c < THREAD_MAX
    ensures CanRun(m, [Event.Terminate(c), Tick(context)])
    ensures Run(m, [Event.Terminate(c), Tick(context)]) == Exit(m, c, context)
  {
    var es := [Event.Terminate(c), Tick(context)];
    assert es[1..] == [Tick(context)] && es[1..][1..] == [];
    var s := Step(m, es[0]);
    RunOne(s, Tick(context));
  }

  /** A thread that can be selected again. */
  predicate Alive(t: Thread) {
    t.state.Ready? || t.state.Running?
  }

  /** The caller has exited if and only if it is the thread that the table calls current and another one is READY. */
  lemma ExitExact(m: Machine, c: nat, context: nat)
    requires Ok(m) && c < THREAD_MAX && context != 0 && m.threads[m.current].state.Running?
    ensures !Alive(Exit(m, c, context).threads[m.current]) <==> c == m.current && SomeReady(m)
    ensures !Alive(Exit(m, c, context).threads[m.current]) ==> Exit(m, c, context).threads[m.current].state.Unused?
  {
    var s := WithState(m, c, Terminated);
    StepKeepsOk(m, Event.Terminate(c));
    if c == m.current {
      SavedReady(s, context, c);
      assert SomeReady(s) <==> SomeReady(m) by {
        if j: nat :| j < THREAD_MAX && m.threads[j].state.Ready? {
          assert s.threads[j].state.Ready?;
        }
        if j: nat :| j < THREAD_MAX && s.threads[j].state.Ready? {
          assert m.threads[j].state.Ready?;
        }
      }
      TerminatedStep(s, Tick(context), c);
    } else {
      TickSaves(s, context);
    }
  }

  /** A RUNNING thread survives a call of the scheduler. */
  lemma TickSaves(m: Machine, context: nat)
    requires Ok(m) && context != 0 && m.threads[m.current].state.Running?
    ensures Alive(Schedule(m, context).threads[m.current])
  {
  }

  // ---- Three runs from the initial machine ----

  /** The tables after `scheduler_initialize`. */
  function InitialMachine(): (m: Machine)
    ensures Ok(m) && m.current == 0 && m.threads[0].state.Running?
    ensures forall i: nat :: 0 < i < THREAD_MAX ==> m.threads[i].state.Unused?
  {
    Machine(seq(THREAD_MAX, i requires 0 <= i < THREAD_MAX =>
                  Thread(i, if i == 0 then Running else Unused, None, 0, 0, 0, 0, KernelThread, 0, 0, 0, 0)), 0)
  }

  /** The only thread blocks itself, and the next call of the scheduler lets it run on. */
  lemma BlockedRunsOn(context: nat)
    requires context != 0
    ensures var m, es := InitialMachine(), [Block(0), Tick(context)];
            && CanRun(m, es) && Run(m, es[..1]).threads[0].state.Blocked?
            && Run(m, es).current == 0 && Run(m, es).threads[0].state.Running?
  {
    var m := InitialMachine();
    hide InitialMachine;
    var s := Step(m, Block(0));
    var es := [Block(0), Tick(context)];
    assert es[1..] == [Tick(context)] && es[..1] == [Block(0)];
    assert s.current == 0 && s.threads[0].state.Blocked?;
    RunOne(m, Block(0));
    RunOne(s, Tick(context));
    BlockedResumes(s, context);
  }

  /** A blocked thread is resumed when it is the current one and no thread is READY. */
  lemma BlockedResumes(s: Machine, context: nat)
    requires Ok(s) && context != 0 && s.threads[s.current].state.Blocked? && !SomeReady(s)
    ensures Step(s, Tick(context)).current == s.current
    ensures Step(s, Tick(context)).threads[s.current].state.Running?
  {
    assert !SomeReady(Save(s, context));
    ResumesRunnable(s, context);
    TickRunsOne(s, context);
  }

  lemma RunOne(m: Machine, e: Event)
    requires Shaped(m) && Enabled(m, e)
    ensures CanRun(m, [e]) && Run(m, [e]) == Step(m, e)
  {
    assert [e][1..] == [];
  }

  /** A thread is created and terminated while the first one runs: whatever happens then, as long as no event names
      it, it keeps its slot and its stack. */
  lemma ZombieFromStart(t: Thread, es: seq<Event>)
    requires t.state.Ready? && t.kernelStack != 0
    requires CanRun(InitialMachine(), [Create(t), Terminate(1)] + es) && forall e :: e in es ==> Ignores(e, 1)
    ensures var s := Run(InitialMachine(), [Create(t), Terminate(1)] + es);
            s.threads[1].state.Terminated? && s.threads[1].kernelStack == t.kernelStack
  {
    var m := InitialMachine();
    hide InitialMachine;
    var all := [Create(t), Terminate(1)] + es;
    assert all[1..] == [Terminate(1)] + es && all[1..][1..] == es;
    var a := Step(m, Create(t));
    assert FirstUnused(m.threads, 1) == 1;
    StepKeepsOk(m, Create(t));
    StepKeepsOk(a, Terminate(1));
    ZombieStays(Step(a, Terminate(1)), es, 1);
  }

  /** SYS_EXIT from the first thread that is created. The thread table still calls thread 0 current, so that one is
      terminated, and the caller runs on. */
  lemma ExitRunsOn(t: Thread, x: nat, y: nat)
    requires Enabled(InitialMachine(), Create(t)) && x != 0 && y != 0
    ensures var m := Step(Step(InitialMachine(), Create(t)), Tick(x));
            && m.current == 1 && m.threads[1].state.Running? && m.threads[0].state.Ready?
            && Exit(m, 0, y).current == 1 && Exit(m, 0, y).threads[1].state.Running?
            && Exit(m, 0, y).threads[0].state.Terminated?
  {
    var a := InitialMachine();
    hide InitialMachine;
    assert FirstUnused(a.threads, 1) == 1;
    var b := Step(a, Create(t));
    assert b.threads[1].state.Ready? && Distance(0, 1) == 1;
    var m := Step(b, Tick(x));
    StepKeepsOk(a, Create(t));
    StepKeepsOk(b, Tick(x));
    OnlyOneReady(m, y);
  }

  /** Thread 0 is the only other one: the caller is selected again. */
  lemma OnlyOneReady(m: Machine, y: nat)
    requires Ok(m) && m.current == 1 && m.threads[1].state.Running? && y != 0
    requires forall j: nat :: 1 < j < THREAD_MAX ==> m.threads[j].state.Unused?
    ensures Exit(m, 0, y).current == 1 && Exit(m, 0, y).threads[1].state.Running?
    ensures Exit(m, 0, y).threads[0].state.Terminated?
  {
    var s := Save(WithState(m, 0, Terminated), y);
    assert s.threads[1].state.Ready? && Distance(1, 1) == THREAD_MAX;
    assert forall j: nat :: j < THREAD_MAX && s.threads[j].state.Ready? ==> j == 1;
  }
}
