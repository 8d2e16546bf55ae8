/** The older task class outside the duke package: a description and a completion
    flag, both final, so a task is a value and markDone builds a new one. */
module LegacyTask {
  import opened StatusDisplay

  datatype Task = Task(description: string, isDone: bool)

  /** The public one-argument constructor: a new task is not done. */
  function NewTask(description: string): (t: Task)
    ensures t.description == description
    ensures !t.isDone
  {
    Task(description, false)
  }

  /** A copy of the task with the same description, marked as completed. */
  function MarkDone(t: Task): (r: Task)
    ensures r.description == t.description
    ensures r.isDone
  {
    Task(t.description, true)
  }

  /** Marking done twice is the same as marking done once. */
  lemma MarkDoneIdempotent(t: Task)
    ensures MarkDone(MarkDone(t)) == MarkDone(t)
  {
  }

  function GetStatusIcon(t: Task): (icon: string)
    ensures |icon| == 1
    ensures icon[0] == Tick <==> t.isDone
    ensures icon[0] == Cross <==> !t.isDone
  {
    StatusIcon(t.isDone)
  }

  function ToString(t: Task): (text: string)
    ensures |text| == |t.description| + 4
    ensures text[..4] == "[" + GetStatusIcon(t) + "] "
    ensures text[4..] == t.description
  {
    Render(t.isDone, t.description)
  }

  /** Two tasks print alike exactly when they agree on both fields. */
  lemma ToStringInjective(a: Task, b: Task)
    ensures ToString(a) == ToString(b) <==> a == b
  {
    RenderInjective(a.isDone, a.description, b.isDone, b.description);
  }
}
