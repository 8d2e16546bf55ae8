/** The task values of the duke package: To-do, Deadline and Event, each with a
    description and a completion flag that are final, so every task is a value and
    "marking done" yields a new one. The variants differ in their one-letter type
    id and in the extra fields they pass to the shared serializer. */
module DukeTask {
  import opened StatusDisplay

  /** What serialize writes between two fields. */
  const Delimiter: string := " | "

  datatype Task =
    | Todo(description: string, isDone: bool)
    | Deadline(description: string, isDone: bool, dueBy: string)
    | Event(description: string, isDone: bool, from: string, to: string)

  /** The one-character type id a variant hands to serialize. */
  function Tag(t: Task): string
  {
    match t
    case Todo(_, _) => "T"
    case Deadline(_, _, _) => "D"
    case Event(_, _, _, _) => "E"
  }

  /** The extra serialized arguments of a variant, in order. */
  function Extras(t: Task): seq<string>
  {
    match t
    case Todo(_, _) => []
    case Deadline(_, _, dueBy) => [dueBy]
    case Event(_, _, from, to) => [from, to]
  }

  /** The completion field: "1" for a completed task, "0" otherwise. */
  function DoneFlag(isDone: bool): (flag: string)
    ensures flag == "1" <==> isDone
    ensures flag == "0" <==> !isDone
  {
    if isDone then "1" else "0"
  }

  /** The fields of a task's serialized line, in order. */
  function Fields(t: Task): (fields: seq<string>)
    ensures |fields| == 3 + |Extras(t)|
    ensures fields[0] == Tag(t) && fields[1] == DoneFlag(t.isDone) && fields[2] == t.description
    ensures fields[3..] == Extras(t)
  {
    [Tag(t), DoneFlag(t.isDone), t.description] + Extras(t)
  }

  /** Fields glued together with the delimiter. */
  function Join(fields: seq<string>): string
    requires fields != []
  {
    if |fields| == 1 then fields[0] else fields[0] + Delimiter + Join(fields[1..])
  }

  /** Appending a field appends the delimiter and that field to the line. */
  lemma {:induction false} JoinSnoc(fields: seq<string>, x: string)
    requires fields != []
    ensures Join(fields + [x]) == Join(fields) + Delimiter + x
  {
    if |fields| == 1 {
      assert (fields + [x])[1..] == [x];
    } else {
      assert (fields + [x])[1..] == fields[1..] + [x];
      JoinSnoc(fields[1..], x);
    }
  }

  /** A three-field line is its fields separated by two delimiters. */
  lemma JoinThree(a: string, b: string, c: string)
    ensures Join([a, b, c]) == a + Delimiter + b + Delimiter + c
  {
    assert [a, b, c][1..] == [b, c];
    assert [b, c][1..] == [c];
    assert Join([b, c]) == b + Delimiter + c;
    assert Join([a, b, c]) == a + Delimiter + (b + Delimiter + c);
  }

  /** The protected serialize(taskId, args...): type id, completion flag and
      description, then each extra argument, appended to a builder one by one. */
  method SerializeFields(taskId: string, isDone: bool, description: string, args: seq<string>)
    returns (line: string)
    ensures line == Join([taskId, DoneFlag(isDone), description] + args)
  {
    var head := [taskId, DoneFlag(isDone), description];
    line := taskId + Delimiter + (if isDone then "1" else "0") + Delimiter + description;
    JoinThree(taskId, DoneFlag(isDone), description);
    assert head + args[..0] == head;
    for i := 0 to |args|
      invariant line == Join(head + args[..i])
    {
      assert head + args[..i + 1] == (head + args[..i]) + [args[i]];
      JoinSnoc(head + args[..i], args[i]);
      line := line + Delimiter + args[i];
    }
    assert args[..|args|] == args;
  }

  /** A prefix of the fields joins to a prefix of the line. */
  lemma {:induction false} JoinPrefix(fields: seq<string>, n: nat)
    requires 1 <= n <= |fields|
    ensures Join(fields[..n]) <= Join(fields)
    decreases |fields|
  {
    if n < |fields| {
      var init := fields[..|fields| - 1];
      JoinPrefix(init, n);
      assert init[..n] == fields[..n];
      assert fields == init + [fields[|fields| - 1]];
      JoinSnoc(init, fields[|fields| - 1]);
    } else {
      assert fields[..n] == fields;
    }
  }

  /** The serialized line of a task, as a value: it begins with the type id,
      and holds the description plus at least the type id, the completion flag
      and two delimiters. */
  function Encode(t: Task): (line: string)
    ensures Tag(t) <= line
    ensures |line| >= |t.description| + 8
  {
    EncodeHead(t);
    Join(Fields(t))
  }

  /** A line begins with type id, completion field and description, and is
      exactly that for a to-do. */
  lemma EncodeHead(t: Task)
    ensures Tag(t) + Delimiter + DoneFlag(t.isDone) + Delimiter + t.description <= Join(Fields(t))
    ensures t.Todo? ==> Join(Fields(t)) == Tag(t) + Delimiter + DoneFlag(t.isDone) + Delimiter + t.description
  {
    var fields := Fields(t);
    JoinPrefix(fields, 3);
    assert fields[..3] == [Tag(t), DoneFlag(t.isDone), t.description];
    assert t.Todo? ==> fields[..3] == fields;
    JoinThree(Tag(t), DoneFlag(t.isDone), t.description);
  }

  /** A variant's serialize(): the shared serializer with its type id and extras. */
  method Serialize(t: Task) returns (line: string)
    ensures line == Encode(t)
  {
    line := SerializeFields(Tag(t), t.isDone, t.description, Extras(t));
  }

  /** The one-argument constructors: a task built from its fields alone is not done. */
  function NewTodo(description: string): (t: Task)
    ensures t.Todo? && Fields(t) == ["T", "0", description]
  {
    Todo(description, false)
  }

  function NewDeadline(description: string, dueBy: string): (t: Task)
    ensures t.Deadline? && Fields(t) == ["D", "0", description, dueBy]
  {
    Deadline(description, false, dueBy)
  }

  function NewEvent(description: string, from: string, to: string): (t: Task)
    ensures t.Event? && Fields(t) == ["E", "0", description, from, to]
  {
    Event(description, false, from, to)
  }

  /** markDone: a copy of the same variant with every field kept and the flag set. */
  function MarkDone(t: Task): (r: Task)
    ensures r.isDone
    ensures r.description == t.description
    ensures Tag(r) == Tag(t) && Extras(r) == Extras(t)
  {
    match t
    case Todo(d, _) => Todo(d, true)
    case Deadline(d, _, dueBy) => Deadline(d, true, dueBy)
    case Event(d, _, from, to) => Event(d, true, from, to)
  }

  /** Marking done twice is the same as marking done once. */
  lemma MarkDoneIdempotent(t: Task)
    ensures MarkDone(MarkDone(t)) == MarkDone(t)
  {
  }

  /** getDescription: the description, which serialize writes as the third
      field and which markDone keeps. */
  function GetDescription(t: Task): (description: string)
    ensures description == Fields(t)[2]
    ensures description == MarkDone(t).description
  {
    t.description
  }

  /** isDone: whether the task is completed, which serialize writes as "1" in
      the second field (and "0" otherwise). */
  function IsDone(t: Task): (done: bool)
    ensures done <==> Fields(t)[1] == "1"
    ensures !done <==> Fields(t)[1] == "0"
  {
    t.isDone
  }

  /** equals: two tasks are equal exactly when their descriptions are, whatever
      their variant or completion state; equal tasks hash alike. */
  predicate Equals(a: Task, b: Task): (eq: bool)
    ensures eq <==> a.description == b.description
    ensures eq ==> HashCode(a) == HashCode(b)
  {
    GetDescription(a) == GetDescription(b)
  }

  /** A task equals its own completed copy. */
  lemma EqualsIgnoresState(t: Task)
    ensures Equals(t, MarkDone(t))
  {
  }

  /** equals is an equivalence relation. */
  lemma EqualsIsEquivalence(a: Task, b: Task, c: Task)
    ensures Equals(a, a)
    ensures Equals(a, b) ==> Equals(b, a)
    ensures Equals(a, b) && Equals(b, c) ==> Equals(a, c)
  {
  }

  /** A 32-bit two's-complement wrap-around of an integer. */
  function Wrap32(x: int): (w: int)
    ensures -0x8000_0000 <= w < 0x8000_0000
    ensures (w - x) % 0x1_0000_0000 == 0
  {
    (x + 0x8000_0000) % 0x1_0000_0000 - 0x8000_0000
  }

  /** Java's String.hashCode: h = 31 * h + c over the characters, in int arithmetic. */
  function StringHash(s: string): (h: int)
    ensures -0x8000_0000 <= h < 0x8000_0000
  {
    if s == [] then 0 else Wrap32(31 * StringHash(s[..|s| - 1]) + s[|s| - 1] as int)
  }

  /** hashCode: Objects.hash(description), that is 31 * 1 + the description's hash. */
  function HashCode(t: Task): (h: int)
    ensures -0x8000_0000 <= h < 0x8000_0000
  {
    Wrap32(31 + StringHash(t.description))
  }

  /** getStatusIcon, shared with the older task class. */
  function GetStatusIcon(t: Task): string
  {
    StatusIcon(t.isDone)
  }

  /** toString, shared with the older task class. */
  function ToString(t: Task): string
  {
    Render(t.isDone, t.description)
  }

  /** Two tasks print alike exactly when they agree on description and completion. */
  lemma ToStringInjective(a: Task, b: Task)
    ensures ToString(a) == ToString(b) <==> a.isDone == b.isDone && a.description == b.description
  {
    RenderInjective(a.isDone, a.description, b.isDone, b.description);
  }

  /** A to-do marked done is written with completion field "1". */
  lemma EncodeDoneTodoExample()
    ensures Encode(MarkDone(NewTodo("read book"))) == "T | 1 | read book"
  {
    var t := MarkDone(NewTodo("read book"));
    assert Fields(t) == ["T", "1", "read book"];
    JoinThree("T", "1", "read book");
  }

  /** A fresh deadline is written with completion field "0" and its date last. */
  lemma EncodeDeadlineExample()
    ensures Encode(NewDeadline("submit report", "2024-01-01")) == "D | 0 | submit report | 2024-01-01"
  {
    var t := NewDeadline("submit report", "2024-01-01");
    var head := ["D", "0", "submit report"];
    assert Fields(t) == head + ["2024-01-01"];
    assert Join(head) == "D | 0 | submit report" by {
      JoinThree("D", "0", "submit report");
    }
    JoinSnoc(head, "2024-01-01");
  }
}
