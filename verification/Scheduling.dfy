/**
  The scheduler of one processor (kernel/src/scheduler.rs), with task states (kernel/src/object/task.rs)
  and the activation of address spaces (kernel/src/object/address_space.rs) that it drives.

  `RunQueue` is the order in which tasks run, as a value; `Scheduler` is the object that updates queues,
  task states and address spaces in place. Context switches themselves and kernel tasklets are not part
  of this model.
*/
module Scheduling {
  import opened Options

  datatype TaskState = Ready | Running | Blocked(reason: nat)

  // ---------------------------------------------------------------------------------------------
  // Who runs when
  // ---------------------------------------------------------------------------------------------

  datatype RunQueue<T> = RunQueue(running: Option<T>, ready: seq<T>, blocked: seq<T>)

  datatype Event<T> =
    | Add(task: T, state: TaskState)
    | Schedule(newState: TaskState)

  /** One call of `add_task` or `schedule`. Calls that panic leave the queue as it is. */
  function Next<T>(q: RunQueue<T>, e: Event<T>): RunQueue<T> {
    match e
    case Add(t, Ready) => q.(ready := q.ready + [t])
    case Add(t, Blocked(_)) => q.(blocked := q.blocked + [t])
    case Add(_, Running) => q
    case Schedule(newState) =>
      if q.running.None? || q.ready == [] || newState.Running? then q
      else
        var rest := RunQueue(Some(q.ready[0]), q.ready[1..], q.blocked);
        if newState.Ready? then rest.(ready := rest.ready + [q.running.value])
        else rest.(blocked := rest.blocked + [q.running.value])
  }

  function After<T>(q: RunQueue<T>, events: seq<Event<T>>): RunQueue<T> {
    if events == [] then q
    else Next(After(q, events[..|events| - 1]), events[|events| - 1])
  }

  /** The calls that hand over the processor. */
  predicate Switches<T>(e: Event<T>) {
    e.Schedule? && !e.newState.Running?
  }

  function CountSwitches<T>(events: seq<Event<T>>): nat {
    if events == [] then 0
    else CountSwitches(events[..|events| - 1]) + if Switches(events[|events| - 1]) then 1 else 0
  }

  /** Once a task runs, some task runs. */
  lemma {:induction false} SomeTaskRuns<T>(q: RunQueue<T>, events: seq<Event<T>>)
    requires q.running.Some?
    ensures After(q, events).running.Some?
    decreases |events|
  {
    if events != [] {
      SomeTaskRuns(q, events[..|events| - 1]);
    }
  }

  /** A ready task moves up one place with each switch, whatever is added or blocked meanwhile. */
  lemma {:induction false} MovesUp<T>(q: RunQueue<T>, events: seq<Event<T>>, i: nat)
    requires q.running.Some? && i < |q.ready| && CountSwitches(events) <= i
    ensures var k := i - CountSwitches(events);
            k < |After(q, events).ready| && After(q, events).ready[k] == q.ready[i]
    decreases |events|
  {
    if events != [] {
      var before := events[..|events| - 1];
      MovesUp(q, before, i);
      SomeTaskRuns(q, before);
    }
  }

  /** A task at ready position `i` runs after exactly the (i+1)-th switch, and not before. */
  lemma RunsOnItsTurn<T>(q: RunQueue<T>, events: seq<Event<T>>, i: nat)
    requires q.running.Some? && i < |q.ready|
    requires events != [] && Switches(events[|events| - 1]) && CountSwitches(events) == i + 1
    ensures After(q, events).running == Some(q.ready[i])
    ensures forall k | 0 <= k < |events| :: CountSwitches(events[..k]) <= i
    ensures forall k | 0 <= k < |events| :: var j := i - CountSwitches(events[..k]);
              j < |After(q, events[..k]).ready| && After(q, events[..k]).ready[j] == q.ready[i]
  {
    var before := events[..|events| - 1];
    MovesUp(q, before, i);
    SomeTaskRuns(q, before);
    forall k | 0 <= k < |events|
      ensures CountSwitches(events[..k]) <= i
      ensures var j := i - CountSwitches(events[..k]);
              j < |After(q, events[..k]).ready| && After(q, events[..k]).ready[j] == q.ready[i]
    {
      CountsGrow(before, k);
      assert before[..k] == events[..k];
      MovesUp(q, events[..k], i);
    }
  }

  lemma {:induction false} CountsGrow<T>(events: seq<Event<T>>, k: nat)
    requires k <= |events|
    ensures CountSwitches(events[..k]) <= CountSwitches(events)
    decreases |events|
  {
    if k < |events| {
      CountsGrow(events[..|events| - 1], k);
      assert events[..|events| - 1][..k] == events[..k];
    } else {
      assert events[..k] == events;
    }
  }

  ghost function All<T>(q: RunQueue<T>): multiset<T> {
    (if q.running.Some? then multiset{q.running.value} else multiset{}) + multiset(q.ready) + multiset(q.blocked)
  }

  ghost function Joining<T>(e: Event<T>): multiset<T> {
    if e.Add? && !e.state.Running? then multiset{e.task} else multiset{}
  }

  /** The tasks that the calls hand over. */
  ghost function Added<T>(events: seq<Event<T>>): multiset<T> {
    if events == [] then multiset{} else Added(events[..|events| - 1]) + Joining(events[|events| - 1])
  }

  lemma NextConserves<T>(q: RunQueue<T>, e: Event<T>)
    ensures All(Next(q, e)) == All(q) + Joining(e)
  {
    match e
    case Add(t, Ready) => assert multiset(q.ready + [t]) == multiset(q.ready) + multiset{t};
    case Add(t, Blocked(_)) => assert multiset(q.blocked + [t]) == multiset(q.blocked) + multiset{t};
    case Add(_, Running) =>
    case Schedule(newState) =>
      if q.running.Some? && q.ready != [] && !newState.Running? {
        SwitchConserves(q, newState);
      }
  }

  lemma SwitchConserves<T>(q: RunQueue<T>, newState: TaskState)
    requires q.running.Some? && q.ready != [] && !newState.Running?
    ensures All(Next(q, Schedule(newState))) == All(q)
  {
    var first, rest, r := q.ready[0], q.ready[1..], q.running.value;
    assert q.ready == [first] + rest;
    assert multiset(q.ready) == multiset{first} + multiset(rest);
    if newState.Ready? {
      assert multiset(rest + [r]) == multiset(rest) + multiset{r};
    } else {
      assert multiset(q.blocked + [r]) == multiset(q.blocked) + multiset{r};
    }
  }

  /** No task is lost or duplicated: over any run, the tasks are those there were and those handed over. */
  lemma {:induction false} TasksAreConserved<T>(q: RunQueue<T>, events: seq<Event<T>>)
    ensures All(After(q, events)) == All(q) + Added(events)
    decreases |events|
  {
    if events != [] {
      TasksAreConserved(q, events[..|events| - 1]);
      NextConserves(After(q, events[..|events| - 1]), events[|events| - 1]);
    }
  }

  // ---------------------------------------------------------------------------------------------
  // The objects
  // ---------------------------------------------------------------------------------------------

  datatype SpaceState = NotActive | Active

  class AddressSpace {
    var state: SpaceState

    constructor ()
      ensures state == NotActive
    {
      state := NotActive;
    }

    /** The precondition is the assertion in the source: it is never violated by the scheduler. */
    method SwitchTo()
      requires state == NotActive
      modifies this
      ensures state == Active
    {
      state := Active;
    }

    method SwitchFrom()
      requires state == Active
      modifies this
      ensures state == NotActive
    {
      state := NotActive;
    }
  }

  class Task {
    var state: TaskState
    const addressSpace: AddressSpace

    constructor (space: AddressSpace)
      ensures state == Ready && addressSpace == space
    {
      state := Ready;
      addressSpace := space;
    }
  }

  ghost predicate Distinct<T>(s: seq<T>) {
    forall i, j | 0 <= i < j < |s| :: s[i] != s[j]
  }

  ghost function Spaces(tasks: set<Task>): set<AddressSpace> {
    set t | t in tasks :: t.addressSpace
  }

  class Scheduler {
    var runningTask: Task?
    var readyQueue: seq<Task>
    var blockedQueue: seq<Task>
    ghost var tasks: set<Task>

    ghost function View(): RunQueue<Task>
      reads this
    {
      var running: Option<Task> := if runningTask == null then None else Some(runningTask);
      RunQueue(running, readyQueue, blockedQueue)
    }

    /** Every task is in exactly the one place its state says. */
    ghost predicate InPlace()
      reads this, tasks
    {
      && Distinct(readyQueue) && Distinct(blockedQueue)
      && (forall t | t in readyQueue :: t in tasks) && (forall t | t in blockedQueue :: t in tasks)
      && (runningTask != null ==> runningTask in tasks)
      && (forall t | t in tasks ::
            && (t.state.Ready? <==> t in readyQueue)
            && (t.state.Blocked? <==> t in blockedQueue)
            && (t.state.Running? <==> t == runningTask))
    }

    /** Of all address spaces exactly the running task's is active. */
    ghost predicate OneActive()
      reads this, tasks, Spaces(tasks)
    {
      forall t | t in tasks ::
        t.addressSpace.state.Active? <==> runningTask != null && t.addressSpace == runningTask.addressSpace
    }

    ghost predicate Valid()
      reads this, tasks, Spaces(tasks)
    {
      InPlace() && OneActive()
    }

    constructor ()
      ensures Valid() && tasks == {} && View() == RunQueue(None, [], [])
    {
      runningTask, readyQueue, blockedQueue, tasks := null, [], [], {};
    }

    /** Hands over a task that is not yet scheduled; one that is already running is a panic. */
    method AddTask(task: Task) returns (ok: bool)
      requires Valid() && task !in tasks
      requires task.addressSpace.state.Active? <==> runningTask != null && task.addressSpace == runningTask.addressSpace
      modifies this
      ensures ok <==> !task.state.Running?
      ensures ok ==> Valid() && tasks == old(tasks) + {task} && View() == Next(old(View()), Add(task, task.state))
      ensures !ok ==> Valid() && tasks == old(tasks) && View() == old(View())
    {
      match task.state
      case Ready =>
        readyQueue := readyQueue + [task];
        tasks := tasks + {task};
        ok := true;
      case Blocked(_) =>
        blockedQueue := blockedQueue + [task];
        tasks := tasks + {task};
        ok := true;
      case Running => ok := false;
    }

    method ChooseNext() returns (task: Task?)
      modifies this`readyQueue
      ensures old(readyQueue) == [] ==> task == null && readyQueue == []
      ensures old(readyQueue) != [] ==> task == old(readyQueue)[0] && readyQueue == old(readyQueue)[1..]
    {
      if readyQueue == [] {
        return null;
      }
      task := readyQueue[0];
      readyQueue := readyQueue[1..];
    }

    /** The first transition into userspace; with no ready task it is a panic. */
    method StartScheduling() returns (ok: bool)
      requires Valid() && runningTask == null
      modifies this, tasks, Spaces(tasks)
      ensures ok <==> old(readyQueue) != []
      ensures ok ==> Valid() && tasks == old(tasks)
      ensures ok ==> View() == RunQueue(Some(old(readyQueue)[0]), old(readyQueue)[1..], old(blockedQueue))
    {
      var task := ChooseNext();
      if task == null {
        return false;
      }
      assert task in old(readyQueue);
      task.state := Running;
      runningTask := task;
      task.addressSpace.SwitchTo();
      ok := true;
    }

    /**
      Called when the running task yields, is pre-empted or blocks. With no other task ready it goes on
      running, in state Running, whatever `newState` says.
    */
    method Schedule(newState: TaskState) returns (ok: bool)
      requires Valid()
      modifies this, tasks, Spaces(tasks)
      ensures ok <==> old(runningTask) != null && (old(readyQueue) == [] || !newState.Running?)
      ensures ok ==> Valid() && tasks == old(tasks) && View() == Next(old(View()), Event.Schedule(newState))
      ensures ok && old(readyQueue) != [] ==> old(runningTask).state == newState
    {
      if runningTask == null {
        return false;
      }
      var next := ChooseNext();
      if next == null {
        return true;
      }
      if newState.Running? {
        return false;
      }
      SwitchTask(newState, next);
      ok := true;
    }

    /** `switch_to`: `next` has just left the ready queue. */
    method SwitchTask(newState: TaskState, next: Task)
      requires runningTask != null && !newState.Running? && next !in readyQueue && next != runningTask
      requires InPlaceBut(next) && OneActive()
      modifies this, tasks, Spaces(tasks)
      ensures Valid() && tasks == old(tasks) && old(runningTask).state == newState && runningTask == next
      ensures readyQueue == if newState.Ready? then old(readyQueue) + [old(runningTask)] else old(readyQueue)
      ensures blockedQueue == if newState.Ready? then old(blockedQueue) else old(blockedQueue) + [old(runningTask)]
    {
      var current := runningTask;
      runningTask := next;
      next.state := Running;
      current.state := newState;
      if newState.Ready? {
        readyQueue := readyQueue + [current];
      } else {
        blockedQueue := blockedQueue + [current];
      }
      current.addressSpace.SwitchFrom();
      next.addressSpace.SwitchTo();
    }

    /** Everything is in place but `task`, which is ready and in no queue. */
    ghost predicate InPlaceBut(task: Task)
      reads this, tasks
    {
      && Distinct(readyQueue) && Distinct(blockedQueue) && task in tasks && task.state.Ready?
      && (forall t | t in readyQueue :: t in tasks) && (forall t | t in blockedQueue :: t in tasks)
      && (runningTask != null ==> runningTask in tasks)
      && (forall t | t in tasks && t != task ::
            && (t.state.Ready? <==> t in readyQueue)
            && (t.state.Blocked? <==> t in blockedQueue)
            && (t.state.Running? <==> t == runningTask))
      && task !in readyQueue && task !in blockedQueue && task != runningTask
    }
  }
}
