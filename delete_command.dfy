/** The delete command: remove the task at a 1-based position from the task list,
    report it, save the new list at once, and hand the new list back. The task
    list is a sequence of tasks addressed from 1; every operation yields a new
    list value rather than changing the old one. */
module DeleteCommands {
  import opened Wrappers
  import opened DukeTask
  import opened Persistence

  const TaskNotFoundMessage: string := "I can't find that task number!"

  /** A delete command names the 1-based position of the task to delete. */
  datatype DeleteCommand = DeleteCommand(taskId: int)

  /** Deleting never ends the session. */
  function IsExit(cmd: DeleteCommand): (exit: bool)
    ensures !exit
  {
    false
  }

  /** The task list's get: the task at 1-based position id, which is one of the
      listed tasks, and the one that deleteTask at the same position removes. */
  function Get(tasks: seq<Task>, id: int): (t: Task)
    requires 1 <= id <= |tasks|
    ensures t in tasks
    ensures tasks == DeleteTask(tasks, id)[..id - 1] + [t] + DeleteTask(tasks, id)[id - 1..]
  {
    tasks[id - 1]
  }

  /** The task list's deleteTask: the list without position id; the tasks before
      it keep their positions and the tasks after it move down by one. */
  function DeleteTask(tasks: seq<Task>, id: int): (rest: seq<Task>)
    requires 1 <= id <= |tasks|
    ensures |rest| == |tasks| - 1
    ensures forall k :: 0 <= k < id - 1 ==> rest[k] == tasks[k]
    ensures forall k :: id - 1 <= k < |rest| ==> rest[k] == tasks[k + 1]
  {
    tasks[..id - 1] + tasks[id..]
  }

  /** Deleting loses exactly the task at position id and no other. */
  lemma DeleteTaskRemovesOne(tasks: seq<Task>, id: int)
    requires 1 <= id <= |tasks|
    ensures multiset(DeleteTask(tasks, id)) + multiset{Get(tasks, id)} == multiset(tasks)
  {
    assert tasks == tasks[..id - 1] + [tasks[id - 1]] + tasks[id..];
  }

  /** execute: rejects a position outside 1..size before doing anything; otherwise
      reports the task at that position (shown), deletes it, saves the new list
      and returns it. A failed save fails the command after the report. */
  method Execute(cmd: DeleteCommand, tasks: seq<Task>, storage: Storage)
    returns (r: Result<seq<Task>>, shown: Option<Task>)
    modifies storage
    ensures !(1 <= cmd.taskId <= |tasks|) ==>
              r == Err(TaskNotFoundMessage) && shown == None && storage.file == old(storage.file)
    ensures 1 <= cmd.taskId <= |tasks| ==> shown == Some(Get(tasks, cmd.taskId))
    ensures 1 <= cmd.taskId <= |tasks| && storage.writable ==>
              r == Ok(DeleteTask(tasks, cmd.taskId)) && storage.file == Readable(EncodeAll(r.value))
    ensures 1 <= cmd.taskId <= |tasks| && !storage.writable ==>
              r == Err("Could not write to file: " + storage.filePath) && storage.file == old(storage.file)
    ensures storage.writable == old(storage.writable)
    ensures r.Ok? && (forall t :: t in tasks ==> Storable(t)) ==>
              storage.file.Readable? && Decoded(storage.file.lines) == r.value
  {
    if cmd.taskId <= 0 || cmd.taskId > |tasks| {
      return Err(TaskNotFoundMessage), None;
    }
    var deletedTask := Get(tasks, cmd.taskId);
    var newTasks := DeleteTask(tasks, cmd.taskId);
    shown := Some(deletedTask);
    var saved := storage.Save(newTasks);
    if saved.Fail? {
      return Err(saved.message), shown;
    }
    forall t | t in newTasks
      ensures t in tasks
    {
      var k :| 0 <= k < |newTasks| && newTasks[k] == t;
      if k < cmd.taskId - 1 { assert t == tasks[k]; } else { assert t == tasks[k + 1]; }
    }
    if forall t :: t in tasks ==> Storable(t) {
      DecodedEncodeAll(newTasks);
    }
    r := Ok(newTasks);
  }
}
