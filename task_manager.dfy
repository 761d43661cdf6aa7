/**
 The stateful part of the task manager: the global id counter, the in-memory
 task list owned by `TaskManager`, and the two persisted entries
 (`taskIdCounter` and `tasks`), each held as the value a later read would
 parse out of it.
 */
module TaskStore {
  import opened Tasks

  class TaskManager {
    /** The global `taskIdCounter`: the id the next task receives. */
    var counter: int
    /** `this.tasks`, in insertion order. */
    var tasks: seq<Task>
    /** The persisted `taskIdCounter` entry, as `parseInt` would read it. */
    var storedCounter: Option<int>
    /** The persisted `tasks` entry, as `JSON.parse` would read it. */
    var storedTasks: TasksEntry

    /** Every id in the list was issued by the counter, and no two records share one. */
    ghost predicate IdsFresh()
      reads this
    {
      IdsBelow(tasks, counter) && UniqueIds(tasks)
    }

    /** A restart from the two stored entries would rebuild the live list and,
        unless it is 0, the live counter. */
    ghost predicate Synced()
      reads this
    {
      LoadTasks(storedTasks) == tasks && (counter != 0 ==> InitialCounter(storedCounter) == counter)
    }

    /** Startup: the counter from its stored entry, then the list from its stored entry. */
    constructor (counterEntry: Option<int>, tasksEntry: TasksEntry)
      ensures counter == InitialCounter(counterEntry)
      ensures tasks == LoadTasks(tasksEntry)
      ensures storedCounter == counterEntry && storedTasks == tasksEntry
      ensures Synced()
    {
      counter := InitialCounter(counterEntry);
      storedCounter := counterEntry;
      storedTasks := tasksEntry;
      tasks := LoadTasks(tasksEntry);
    }

    /** `saveTaskIdCounter`: writes the counter to its entry. */
    method SaveTaskIdCounter()
      modifies this`storedCounter
      ensures storedCounter == Some(counter)
    {
      storedCounter := Some(counter);
    }

    /** `saveTasks`: overwrites the stored list with the whole in-memory list. */
    method SaveTasks()
      modifies this`storedTasks
      ensures storedTasks == Parsed(tasks)
    {
      storedTasks := Parsed(tasks);
    }

    /** `new Task(description)`: takes the counter's value as id, post-increments
        the counter and persists it. */
    method NewTask(description: string) returns (t: Task)
      modifies this`counter, this`storedCounter
      ensures t == Task(old(counter), description, false)
      ensures counter == old(counter) + 1
      ensures storedCounter == Some(counter)
    {
      t := Task(counter, description, false);
      counter := counter + 1;
      SaveTaskIdCounter();
    }

    /** `addTask`: appends a fresh record and persists the list. */
    method AddTask(description: string)
      requires ValidDescription(description)
      modifies this
      ensures tasks == old(tasks) + [Task(old(counter), description, false)]
      ensures counter == old(counter) + 1
      ensures storedCounter == Some(counter) && storedTasks == Parsed(tasks)
      ensures old(IdsFresh()) ==> IdsFresh() && !Has(old(tasks), old(counter))
      ensures old(IdsBelow(tasks, counter) && Ascending(tasks)) ==> Ascending(tasks) && IdsFresh()
      ensures old(Synced()) ==> Synced()
    {
      ghost var before := tasks;
      var task := NewTask(description);
      tasks := tasks + [task];
      SaveTasks();
      if IdsBelow(before, old(counter)) {
        AppendFresh(before, old(counter), description);
        if Ascending(tasks) {
          AscendingIsUnique(tasks);
        }
      }
    }

    /** `listTasks`, without its formatting: nothing when the list is empty,
        otherwise the records in insertion order. */
    method ListTasks() returns (listing: Option<seq<Task>>)
      ensures listing.None? <==> tasks == []
      ensures listing.Some? ==> listing.value == tasks
    {
      if |tasks| == 0 {
        listing := None;
      } else {
        listing := Some(tasks);
      }
    }

    /** `toggleTask`: flips `completed` on the record `find` returns; persists
        only when there is one. */
    method ToggleTask(id: int) returns (found: bool)
      modifies this`tasks, this`storedTasks
      ensures found == Has(old(tasks), id)
      ensures tasks == Toggled(old(tasks), id)
      ensures storedTasks == if found then Parsed(tasks) else old(storedTasks)
      ensures old(IdsFresh()) ==> IdsFresh()
      ensures old(Ascending(tasks)) ==> Ascending(tasks)
      ensures old(Synced()) ==> Synced()
    {
      ghost var before := tasks;
      match FindIndex(tasks, id) {
        case Some(i) =>
          tasks := tasks[i := tasks[i].(completed := !tasks[i].completed)];
          SaveTasks();
          found := true;
        case None =>
          found := false;
      }
      SameIdsKeepInvariants(tasks, before, counter);
    }

    /** `deleteTask`: keeps the records whose id differs and persists only
        when the list got shorter. The counter is never touched, so a deleted
        id stays below it and is never issued again. */
    method DeleteTask(id: int) returns (found: bool)
      modifies this`tasks, this`storedTasks
      ensures found == (|tasks| < |old(tasks)|)
      ensures found == Has(old(tasks), id)
      ensures tasks == Without(old(tasks), id)
      ensures storedTasks == if found then Parsed(tasks) else old(storedTasks)
      ensures counter == old(counter)
      ensures old(IdsFresh()) ==> IdsFresh()
      ensures old(IdsFresh()) && found ==> id < counter
      ensures old(Ascending(tasks)) ==> Ascending(tasks)
      ensures old(Synced()) ==> Synced()
    {
      ghost var before := tasks;
      var initialLength := |tasks|;
      tasks := Without(tasks, id);
      if |tasks| < initialLength {
        SaveTasks();
        found := true;
      } else {
        found := false;
      }
      if IdsBelow(before, counter) {
        WithoutKeepsIdsBelow(before, id, counter);
      }
      if UniqueIds(before) {
        WithoutKeepsUnique(before, id);
      }
      if Ascending(before) {
        WithoutKeepsAscending(before, id);
      }
    }

    /** `updateTask`: gives the record `find` returns the new description;
        persists only when there is one. */
    method UpdateTask(id: int, newDescription: string) returns (found: bool)
      requires ValidDescription(newDescription)
      modifies this`tasks, this`storedTasks
      ensures found == Has(old(tasks), id)
      ensures tasks == Updated(old(tasks), id, newDescription)
      ensures storedTasks == if found then Parsed(tasks) else old(storedTasks)
      ensures old(IdsFresh()) ==> IdsFresh()
      ensures old(Ascending(tasks)) ==> Ascending(tasks)
      ensures old(Synced()) ==> Synced()
    {
      ghost var before := tasks;
      match FindIndex(tasks, id) {
        case Some(i) =>
          tasks := tasks[i := tasks[i].(description := newDescription)];
          SaveTasks();
          found := true;
        case None =>
          found := false;
      }
      SameIdsKeepInvariants(tasks, before, counter);
    }
  }

  /** A first session on empty storage: two adds and a toggle. */
  method FirstRunScenario()
  {
    var m := new TaskManager(None, Missing);
    assert m.counter == 1 && m.tasks == [];
    var milk, dog := "Buy milk", "Walk dog";
    assert ValidDescription(milk) && ValidDescription(dog);
    m.AddTask(milk);
    m.AddTask(dog);
    assert m.tasks == [Task(1, milk, false), Task(2, dog, false)];

    ghost var before := m.tasks;
    assert FindIndex(before, 1) == Some(0);
    var found := m.ToggleTask(1);
    assert found && m.tasks == [Task(1, milk, true), Task(2, dog, false)];
    assert m.storedCounter == Some(3) && m.storedTasks == Parsed(m.tasks);

    DeleteScenario(m);
  }

  /** The session continued: deleting id 2, after which toggling it is not found. */
  method DeleteScenario(m: TaskManager)
    requires m.tasks == [Task(1, "Buy milk", true), Task(2, "Walk dog", false)] && m.counter == 3
    modifies m
  {
    ghost var before := m.tasks;
    assert Without(before, 2) == [before[0]] by {
      assert before == [before[0]] + [before[1]];
      WithoutConcat([before[0]], [before[1]], 2);
    }
    var found := m.DeleteTask(2);
    assert found && m.tasks == [Task(1, "Buy milk", true)];

    found := m.ToggleTask(2);
    assert !found && m.tasks == [Task(1, "Buy milk", true)];

    RenameScenario(m);
  }

  /** The session's last steps: renaming the one task left, then adding
      another, which receives 3 and not the deleted id 2. */
  method RenameScenario(m: TaskManager)
    requires m.tasks == [Task(1, "Buy milk", true)] && m.counter == 3
    modifies m
  {
    var oat := "Buy oat milk";
    assert ValidDescription(oat);
    ghost var before := m.tasks;
    assert FindIndex(before, 1) == Some(0);
    var found := m.UpdateTask(1, oat);
    assert found && m.tasks == [Task(1, oat, true)];
    assert m.storedTasks == Parsed(m.tasks) && m.counter == 3;

    var call := "Call mum";
    assert ValidDescription(call);
    m.AddTask(call);
    assert m.tasks[1] == Task(3, call, false);
  }

  /** A restart from what a session stored rebuilds its state. From a stored
      counter of -1, one add persists 0, which a restart reads as 1. */
  method RestartScenario()
  {
    var m := new TaskManager(Some(-1), Missing);
    var milk := "Buy milk";
    assert ValidDescription(milk);
    m.AddTask(milk);
    assert m.tasks == [Task(-1, milk, false)] && m.counter == 0 && m.Synced();

    var again := new TaskManager(m.storedCounter, m.storedTasks);
    assert again.tasks == m.tasks;
    assert again.counter == 1 != m.counter;
  }
}
