/** The dashboard's state and its actions. Each React state variable is a field; each action
    replaces the fields its setters name. The clock (`Date.now()` for new ids, `toISOString()`
    for log times) is a parameter of the actions that read it. */
module DashboardState {
  import opened JsNumbers
  import opened JsStrings
  import opened TaskList

  /** The text of the picked time: `newTaskTime.format('h:mm a')`, or `''` when none is picked. */
  function TimeText(picked: Option<string>): string
  {
    if picked.Some? then picked.value else ""
  }

  /** The one pass `toggleTask` makes over `list`: each task with the id is flipped and, as it is
      met, logged on top of `start`; the other tasks are kept as they are. */
  method ToggleWalk(list: seq<Task>, start: seq<Activity>, id: int, stamp: string)
    returns (mapped: seq<Task>, log: seq<Activity>)
    ensures mapped == Toggled(list, id)
    ensures log == LogAll(start, ToggleEntries(list, id, stamp))
  {
    mapped, log := [], start;
    var i := 0;
    while i < |list|
      invariant 0 <= i <= |list| && |mapped| == i
      invariant forall j :: 0 <= j < i ==> mapped[j] == Flip(list[j], id)
      invariant log == LogAll(start, ToggleEntries(list[..i], id, stamp))
    {
      var t := list[i];
      ToggleEntriesStep(list, i, id, stamp);
      if t.id == id {
        LogAllStep(start, ToggleEntries(list[..i], id, stamp), Activity(ToggleAction(t), stamp));
        log := Logged(log, Activity(ToggleAction(t), stamp));
        mapped := mapped + [t.(completed := !t.completed)];
      } else {
        mapped := mapped + [t];
      }
      i := i + 1;
    }
    assert list[..i] == list;
  }

  class Dashboard {
    var tasks: seq<Task>
    var activityLog: seq<Activity>
    /** The new-task input. */
    var newTask: string
    /** The picked time, already formatted. */
    var newTaskTime: Option<string>
    /** The task being edited, as edited so far; `null` is `None`. */
    var taskToEdit: Option<Task>
    /** The id of the task awaiting deletion; `null` is `None`. */
    var taskToDelete: Option<int>

    /** Mounting: tasks and log come from storage (empty when nothing is saved); the inputs are empty
        and no edit or deletion is pending. */
    constructor (savedTasks: seq<Task>, savedLog: seq<Activity>)
      ensures tasks == savedTasks && activityLog == savedLog
      ensures newTask == "" && newTaskTime == None
      ensures taskToEdit == None && taskToDelete == None
    {
      tasks := savedTasks;
      activityLog := savedLog;
      newTask := "";
      newTaskTime := None;
      taskToEdit := None;
      taskToDelete := None;
    }

    /** `addActivity`: logs `action` at time `stamp`. */
    method AddActivity(action: string, stamp: string)
      modifies this
      ensures activityLog == Logged(old(activityLog), Activity(action, stamp))
      ensures tasks == old(tasks) && newTask == old(newTask) && newTaskTime == old(newTaskTime)
      ensures taskToEdit == old(taskToEdit) && taskToDelete == old(taskToDelete)
    {
      var entry := Activity(action, stamp);
      activityLog := Logged(activityLog, entry);
    }

    /** `handleAddTask`: a blank input changes nothing; otherwise a new, not completed task with id
        `now` goes first, the addition is logged, and the inputs are cleared. */
    method HandleAddTask(now: int, stamp: string)
      modifies this
      ensures Trim(old(newTask)) == [] ==>
        && tasks == old(tasks) && activityLog == old(activityLog)
        && newTask == old(newTask) && newTaskTime == old(newTaskTime)
      ensures Trim(old(newTask)) != [] ==>
        && tasks == [Task(now, old(newTask), TimeText(old(newTaskTime)), false, "")] + old(tasks)
        && activityLog == Logged(old(activityLog), Activity(AddAction(old(newTask)), stamp))
        && newTask == "" && newTaskTime == None
      ensures taskToEdit == old(taskToEdit) && taskToDelete == old(taskToDelete)
    {
      if Trim(newTask) == [] {
        return;
      }
      var task := Task(now, newTask, TimeText(newTaskTime), false, "");
      tasks := [task] + tasks;
      AddActivity(AddAction(task.content), stamp);
      newTask := "";
      newTaskTime := None;
    }

    /** `toggleTask`: walks the list once, flipping each task with the id and logging it as it goes. */
    method ToggleTask(id: int, stamp: string)
      modifies this
      ensures tasks == Toggled(old(tasks), id)
      ensures activityLog == LogAll(old(activityLog), ToggleEntries(old(tasks), id, stamp))
      ensures newTask == old(newTask) && newTaskTime == old(newTaskTime)
      ensures taskToEdit == old(taskToEdit) && taskToDelete == old(taskToDelete)
    {
      tasks, activityLog := ToggleWalk(tasks, activityLog, id, stamp);
    }

    /** `saveEdit`: with no task being edited nothing changes; otherwise every task with the edited
        task's id is replaced by it, the update is logged and the edit is closed. */
    method SaveEdit(stamp: string)
      modifies this
      ensures old(taskToEdit).None? ==>
        tasks == old(tasks) && activityLog == old(activityLog) && taskToEdit == None
      ensures old(taskToEdit).Some? ==>
        && tasks == Replaced(old(tasks), old(taskToEdit).value)
        && activityLog == Logged(old(activityLog),
                                 Activity("Updated task: \"" + old(taskToEdit).value.content + "\"", stamp))
        && taskToEdit == None
      ensures newTask == old(newTask) && newTaskTime == old(newTaskTime) && taskToDelete == old(taskToDelete)
    {
      if taskToEdit.None? {
        return;
      }
      var edited := taskToEdit.value;
      tasks := Replaced(tasks, edited);
      AddActivity("Updated task: \"" + edited.content + "\"", stamp);
      taskToEdit := None;
    }

    /** `confirmDelete`: runs only when the pending id is truthy (present and not 0); then every
        task with it is removed, the deletion is logged with the first such task's content, and
        nothing is pending any more. */
    method ConfirmDelete(stamp: string)
      modifies this
      ensures !(old(taskToDelete).Some? && old(taskToDelete).value != 0) ==>
        tasks == old(tasks) && activityLog == old(activityLog) && taskToDelete == old(taskToDelete)
      ensures old(taskToDelete).Some? && old(taskToDelete).value != 0 ==>
        && tasks == Removed(old(tasks), old(taskToDelete).value)
        && activityLog == Logged(old(activityLog),
                                 Activity(DeleteAction(Find(old(tasks), old(taskToDelete).value)), stamp))
        && taskToDelete == None
      ensures newTask == old(newTask) && newTaskTime == old(newTaskTime) && taskToEdit == old(taskToEdit)
    {
      if taskToDelete.Some? && taskToDelete.value != 0 {
        var id := taskToDelete.value;
        var found := Find(tasks, id);
        tasks := Removed(tasks, id);
        AddActivity(DeleteAction(found), stamp);
        taskToDelete := None;
      }
    }

    /** `completedCount` for the current list. */
    function Completed(): (n: nat)
      reads this
      ensures n <= |tasks|
    {
      CompletedCount(tasks)
    }

    /** `progressPercent` for the current list. */
    function Progress(): (p: int)
      reads this
      ensures 0 <= p <= 100
      ensures |tasks| == 0 ==> p == 0
    {
      ProgressBounds(tasks);
      ProgressPercent(tasks)
    }
  }
}
