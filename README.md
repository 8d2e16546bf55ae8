# Duke task codec and delete command, in Dafny

This project models the persistence core of the Duke task-tracking chat-bot.
A task is a To-do, a Deadline or an Event. It carries a description and a
completion flag, and a Deadline or Event also carries one or two date strings.
Each task is saved as one line of the form `TYPE | DONE | DESCRIPTION [| EXTRA]*`.
Loading decodes the save file line by line and silently drops lines that do not
decode. Saving rewrites the whole file. The delete command removes a task by its
1-based position and saves the new list at once.

Modules, one per source file plus two helpers:

- `Wrappers`: `Result` (a value or a DukeException message), `Outcome`, `Option`.
- `StatusDisplay`: the tick/cross status icon and the `[icon] description` text,
  which both task classes define identically.
- `DukeTask` (`src/main/java/duke/task/Task.java`): the task datatype and the
  shared serializer. `SerializeFields` keeps the source's builder loop over the
  extra arguments. Also `markDone`, `equals`, `hashCode` and `toString`.
- `LegacyTask` (`src/main/java/Task.java`): the older task class with a
  description and a flag only.
- `Persistence` (`src/main/java/Storage.java`): Java's `String.split` for the
  fixed delimiter, `readTask` and its helpers, and the class `Storage`. Its
  `Load` and `Save` keep the source's line loops. Both are proved against the
  functions `Decoded` and `EncodeAll`.
- `DeleteCommands` (`src/main/java/duke/command/DeleteCommand.java`):
  `execute` and `isExit`, with the task list as a sequence of tasks.

Headline results:

- `ReadTaskEncode`: decoding a serialized task gives the same task back. This
  needs every field free of `'|'` and a non-empty last field.
- `DecodedEncodeAll`: loading what `save` wrote gives back the list, in order.
- `ReadTaskReencodes`: a line that decodes is its task's serialized line,
  followed only by the delimiters of the empty trailing fields that `split` drops.
- `RawSplitCutsEveryDelimiter` and `RawSplitSingle`: the tokenizer cuts at every
  ` | `, leftmost first, and leaves a line without one whole.
- `Storage.Load`: a bad line never makes loading fail.
- `DecodedIsSubsequence`: the loaded list is the in-order subsequence of the
  lines that decode.
- `ReadTaskLosesEmptyDeadline`: the last-field condition is needed. A Deadline
  with an empty date comes back as an undecodable line, because Java's `split`
  drops trailing empty tokens.

`Storage.java` declares no Task classes of its own. This model decodes into the
variant datatype of `duke/task/Task.java`, and a decoded task keeps its variant
when it is marked done.

## Model

| member | source | states |
|---|---|---|
| `StatusDisplay.StatusIcon` | src/main/java/duke/task/Task.java:56-59 | the icon is one character: a tick exactly when the task is done, a cross exactly when it is not |
| `StatusDisplay.Render` | src/main/java/duke/task/Task.java:102-104 | the text is `[`, the status icon, `] `, then the description unchanged |
| `StatusDisplay.RenderInjective` | src/main/java/Task.java:40-43 | two printed forms are equal iff the completion flags and the descriptions are equal |
| `DukeTask.DoneFlag` | src/main/java/duke/task/Task.java:88 | the completion field is `"1"` iff the task is done and `"0"` iff it is not |
| `DukeTask.Fields` | src/main/java/duke/task/Task.java:86-94 | a task's line has 3 + (number of extras) fields: type id, completion field, description, then the extras in order |
| `DukeTask.JoinSnoc` | src/main/java/duke/task/Task.java:92-94 | appending one argument adds the delimiter and that argument to the end of the line |
| `DukeTask.SerializeFields` | src/main/java/duke/task/Task.java:82-98 | the builder loop produces the type id, the completion field, the description, then each argument, in order, with `" \| "` between consecutive fields |
| `DukeTask.JoinPrefix` | src/main/java/duke/task/Task.java:92-94 | the line built from the first fields is a prefix of the whole line |
| `DukeTask.Encode` | src/main/java/duke/task/Task.java:82-98 | a serialized line begins with the type id and is at least 8 characters longer than the description (type id, completion field, two delimiters) |
| `DukeTask.EncodeHead` | src/main/java/duke/task/Task.java:82-98 | a serialized line begins with type id, completion field and description, separated by `" \| "`; a To-do's line is exactly that |
| `DukeTask.Serialize` | src/main/java/duke/task/Task.java:73 | a variant's serialize() is the shared serializer applied to its own type id and extras |
| `DukeTask.NewTodo` | src/main/java/duke/task/Task.java:18-20 | a new To-do is not done and its fields are `T`, `0`, description |
| `DukeTask.NewDeadline` | src/main/java/duke/task/Task.java:18-20 | a new Deadline is not done and its fields are `D`, `0`, description, date |
| `DukeTask.NewEvent` | src/main/java/duke/task/Task.java:18-20 | a new Event is not done and its fields are `E`, `0`, description, start, end |
| `DukeTask.MarkDone` | src/main/java/duke/task/Task.java:60-66 | the copy is done and keeps the variant, the description and every extra field |
| `DukeTask.MarkDoneIdempotent` | src/main/java/duke/task/Task.java:60-66 | marking done twice equals marking done once |
| `DukeTask.GetDescription` | src/main/java/duke/task/Task.java:38-40 | the description is the third serialized field, and marking done keeps it |
| `DukeTask.IsDone` | src/main/java/duke/task/Task.java:47-49 | a task is done iff its serialized completion field is "1", and not done iff it is "0" |
| `DukeTask.Equals` | src/main/java/duke/task/Task.java:106-121 | two tasks are equal iff their descriptions are, whatever their variant or completion state; equal tasks have equal hash codes |
| `DukeTask.EqualsIgnoresState` | src/main/java/duke/task/Task.java:106-115 | a task equals its done copy |
| `DukeTask.EqualsIsEquivalence` | src/main/java/duke/task/Task.java:106-115 | equals is reflexive, symmetric and transitive |
| `DukeTask.Wrap32` | src/main/java/duke/task/Task.java:118-121 | Java int arithmetic: the result is in the 32-bit signed range and congruent to the input modulo 2^32 |
| `DukeTask.StringHash` | src/main/java/duke/task/Task.java:118-121 | the description's String.hashCode, computed in int arithmetic, is a 32-bit int |
| `DukeTask.HashCode` | src/main/java/duke/task/Task.java:118-121 | hashCode is a 32-bit int |
| `DukeTask.ToStringInjective` | src/main/java/duke/task/Task.java:101-104 | two tasks print alike iff they agree on description and completion flag |
| `DukeTask.EncodeDoneTodoExample` | src/main/java/duke/task/Task.java:82-98 | a done To-do "read book" is written as `T \| 1 \| read book` |
| `DukeTask.EncodeDeadlineExample` | src/main/java/duke/task/Task.java:82-98 | a fresh Deadline is written as `D \| 0 \| submit report \| 2024-01-01` |
| `LegacyTask.NewTask` | src/main/java/Task.java:12-14 | a task built from a description has that description and is not done |
| `LegacyTask.MarkDone` | src/main/java/Task.java:36-38 | the copy has the same description and is done |
| `LegacyTask.MarkDoneIdempotent` | src/main/java/Task.java:36-38 | marking done twice equals marking done once |
| `LegacyTask.GetStatusIcon` | src/main/java/Task.java:26-29 | tick iff done, cross iff not done |
| `LegacyTask.ToString` | src/main/java/Task.java:40-43 | the text is `[` icon `] ` followed by the description |
| `LegacyTask.ToStringInjective` | src/main/java/Task.java:40-43 | two tasks print alike iff they are the same value |
| `Persistence.RawSplit` | src/main/java/Storage.java:90 | the leftmost, non-overlapping cut at `" \| "` always yields at least one token |
| `Persistence.RawSplitCutsEveryDelimiter` | src/main/java/Storage.java:90 | the cut is made at every `" \| "` and at the leftmost of overlapping ones: no token contains `" \| "`, and no token but the last ends in `" \|"` |
| `Persistence.RawSplitSingle` | src/main/java/Storage.java:90 | the cut is a single token iff the line contains no `" \| "`, and that token is the whole line |
| `Persistence.RawSplitJoinsBack` | src/main/java/Storage.java:90 | joining the cut's tokens with the delimiter rebuilds the line exactly |
| `Persistence.DropTrailingEmpty` | src/main/java/Storage.java:90 | the result is a prefix, ends in a non-empty token (or is empty), and only empty tokens were removed |
| `Persistence.Split` | src/main/java/Storage.java:90 | split never has more tokens than the cut, and unless it is the whole line as one token, its last token (if any) is non-empty |
| `Persistence.SplitIsCutWithoutTrailingEmpties` | src/main/java/Storage.java:90 | split's tokens are a prefix of the cut and every cut token it leaves out is empty; split is the whole line when the line contains no `" \| "`, and otherwise its last token, if any, is non-empty |
| `Persistence.RawSplitField` | src/main/java/Storage.java:90 | a `'\|'`-free field followed by the delimiter is cut off as the first token |
| `Persistence.RawSplitPlain` | src/main/java/Storage.java:90 | a `'\|'`-free text is a single token |
| `Persistence.RawSplitJoin` | src/main/java/Storage.java:90 | cutting a joined line of `'\|'`-free fields gives the fields back |
| `Persistence.SplitJoin` | src/main/java/Storage.java:90 | split gives the joined fields back when none holds `'\|'` and the last is non-empty |
| `Persistence.SerializedFieldCount` | src/main/java/duke/task/Task.java:82-98 | a serialized line splits into exactly 3 + (number of arguments) fields under the same conditions |
| `Persistence.IsTask` | src/main/java/Storage.java:127-133 | a token sequence has a task's shape iff it has at least 3 tokens and its second token is one of the two completion fields serialize writes |
| `Persistence.ReadTodo` | src/main/java/Storage.java:135-141 | succeeds iff there are exactly 3 tokens, with an undone To-do of token 2; otherwise fails with the To-do arity message |
| `Persistence.ReadDeadline` | src/main/java/Storage.java:143-149 | succeeds iff there are exactly 4 tokens, with an undone Deadline of tokens 2 and 3; otherwise fails with the Deadline arity message |
| `Persistence.ReadEvent` | src/main/java/Storage.java:151-157 | succeeds iff there are exactly 5 tokens, with an undone Event of tokens 2, 3 and 4; otherwise fails with the Event arity message |
| `Persistence.ReadTokens` | src/main/java/Storage.java:93-133 | succeeds iff there are at least 3 tokens, the completion token is "0" or "1", and the type id is T, D or E with exactly 3, 4 or 5 tokens. On success the task's fields are exactly the tokens, so the description is token 2, the extras are tokens 3 onward, the variant follows token 0, and the task is done iff token 1 is "1". A non-task shape fails with the invalid-arguments message. An unknown type id fails with "Unknown task type: " plus that id |
| `Persistence.ReadTask` | src/main/java/Storage.java:88-125 | a line decodes iff its split tokens have a task's shape (at least 3 tokens, completion field "0" or "1", type id T, D or E with 3, 4 or 5 tokens), and then the task's fields are exactly those tokens. A non-task shape fails with the invalid-arguments message; an unknown type id fails with "Unknown task type: " plus that id |
| `Persistence.JoinTrailingEmpty` | src/main/java/Storage.java:90 | empty fields at the end of a joined line add one delimiter each |
| `Persistence.ReadTaskReencodes` | src/main/java/Storage.java:88-125 | a line that decodes is its task's serialized line followed only by delimiters, one per empty trailing field that split dropped |
| `Persistence.ReadTaskEncode` | src/main/java/Storage.java:88-125 | decoding a task's serialized line gives back that task, done flag included, when no field holds `'\|'` and the last field is non-empty |
| `Persistence.ReadTaskLosesEmptyDeadline` | src/main/java/Storage.java:143-149 | a Deadline with an empty date does not survive the round trip |
| `Persistence.Successes` | src/main/java/Storage.java:48-58 | keeping only the successful results never lengthens the sequence |
| `Persistence.Decoded` | src/main/java/Storage.java:48-58 | the loaded list is never longer than the file |
| `Persistence.OkIndices` | src/main/java/Storage.java:48-58 | increasing positions, each of a successful result, covering every successful result |
| `Persistence.SuccessesAtOkIndices` | src/main/java/Storage.java:48-58 | the k-th kept task is the value of the k-th successful result |
| `Persistence.DecodedIsSubsequence` | src/main/java/Storage.java:48-58 | the loaded list is the in-order subsequence of exactly the lines that decode |
| `Persistence.SuccessesAllOk` | src/main/java/Storage.java:48-58 | when every line decodes, every task is kept, in order |
| `Persistence.SuccessesAppend` | src/main/java/Storage.java:48-58 | the successes of two blocks are the successes of each, concatenated |
| `Persistence.ReadAllAppend` | src/main/java/Storage.java:48-58 | decoding two blocks of lines is decoding each block, position by position |
| `Persistence.DecodedAppend` | src/main/java/Storage.java:48-58 | loading two blocks of lines gives each block's tasks, concatenated |
| `Persistence.DecodedOne` | src/main/java/Storage.java:49-53 | one line loads its task if it decodes and nothing otherwise |
| `Persistence.DecodedPrefixStep` | src/main/java/Storage.java:48-58 | each loop step appends the line's task when it decodes and nothing when it does not |
| `Persistence.DecodedSkipsBadLine` | src/main/java/Storage.java:52-53 | inserting a line that does not decode changes nothing that is loaded |
| `Persistence.EncodeAll` | src/main/java/Storage.java:78-81 | one line per task, and line i is the serialized form of task i |
| `Persistence.DecodedEncodeAll` | src/main/java/Storage.java:36-86 | loading the saved lines gives back the saved list, in order, when every task is storable |
| `Persistence.ReadTaskRejectsBadFlag` | src/main/java/Storage.java:127-133 | a line whose completion field is neither "0" nor "1" fails with the invalid-arguments message, whatever its `'\|'`-free fields |
| `Persistence.Storage.constructor` | src/main/java/Storage.java:26-28 | the storage has the given path and the given file state |
| `Persistence.Storage.Load` | src/main/java/Storage.java:36-65 | an unreadable file fails with "Could not read to file: " plus the path. Otherwise the result is the tasks of the lines that decode, in order; a bad line never makes loading fail |
| `Persistence.Storage.Save` | src/main/java/Storage.java:73-86 | a writable file (one that opens and takes every write) is rewritten with exactly one serialized line per task, in list order. Otherwise the call fails with "Could not write to file: " plus the path and the file is unchanged |
| `DeleteCommands.IsExit` | src/main/java/duke/command/DeleteCommand.java:45-48 | deleting never ends the session |
| `DeleteCommands.Get` | src/main/java/duke/command/DeleteCommand.java:32 | the task at an in-range position is one of the listed tasks, and it is exactly the task that deleteTask at that position removes |
| `DeleteCommands.DeleteTask` | src/main/java/duke/command/DeleteCommand.java:33 | the list loses one element: earlier tasks keep their positions and later ones move down by one |
| `DeleteCommands.DeleteTaskRemovesOne` | src/main/java/duke/command/DeleteCommand.java:32-33 | the new list plus the deleted task is the old list as a multiset |
| `DeleteCommands.Execute` | src/main/java/duke/command/DeleteCommand.java:25-43 | a position outside 1..size fails with "I can't find that task number!" and saves nothing. Otherwise the task at that position is the one shown, and the list without it is saved and returned. The saved lines are exactly those of the returned list, and loading them gives that list back when its tasks are storable. A failed save fails the command and leaves the file unchanged |

## Left out

- The streams and readers of `load` and `save` are not modelled. The file is its sequence of lines, or `Unreadable`. Whether it can be opened for writing, and every write to it then succeeds, is the `writable` flag of `Storage`, which the environment sets.
- `Storage.Save`: `PrintWriter` swallows write errors, so a write that fails after a successful open returns normally and leaves a partial file. The model assumes every write after a successful open succeeds, and only a failed open gives the write error.
- Line framing is not modelled. `println` writes a line terminator, and `readLine` splits on `\n` and `\r`. A field that holds a line break would come back as two lines. Since the model's file is already a sequence of lines, it does not show this.
- `ReadTaskEncode` and `SplitJoin` require fields with no `'|'`. This is sufficient but stronger than needed. The exact condition is that no ` | ` occurrence arises inside a field or where a field meets a delimiter.
- `ui.showDelete` is modelled as the `shown` result of `Execute`. `ui.showText` and `ui.showTaskCount` print text and are left out. The `Ui` class is not part of this model.
- The `TaskList` class is not part of this model. Only `getNumTasks`, `get` and `deleteTask` appear, as sequence length, `Get` and `DeleteTask`. `Get` and `DeleteTask` require an in-range position because `Execute` checks the range before calling them.
- The `Todo`, `Deadline` and `Event` classes are not part of this model. Their type ids and field counts come from `Storage.java`. Their `serialize()` and `markDone()` are assumed to pass their own fields and to keep their own variant, as the abstract `markDone` in `duke/task/Task.java` promises.
- `DukeTask.MarkDone` keeps the variant. The root-package `Task.markDone` builds a plain `Task`, and the root-package subclasses that `Storage.java` constructs are not part of this model. So the model does not show whether a task decoded there keeps its variant once marked done.
- Empty fields are not rejected: no modelled code checks for them, and `ReadTaskLosesEmptyDeadline` shows what an empty last field does.
- `LegacyTask.GetStatusIcon` and `LegacyTask.ToString` state the same as `StatusDisplay.StatusIcon` and `StatusDisplay.Render`, because the two source classes define them identically. In `DukeTask`, `GetStatusIcon` and `ToString` are plain names for the shared functions and carry no contract of their own.
- `equals` called with something other than a task returns false in Java. Only task arguments are modelled. Object identity is implied by equal descriptions.
- `DukeTask.StringHash` treats each character's code point as Java's UTF-16 code unit. This is exact for the Basic Multilingual Plane only.
- `src/main/java/duke/Duke.java` (the window, the console loop and the empty-list fallback when loading fails) is not part of this model. Neither is the abstract `Command.java`.
- Adding a task to the list and marking a listed task done are `TaskList` operations, which are not part of this model. The lines such tasks are saved as are covered by `EncodeDoneTodoExample` and `EncodeDeadlineExample`.
