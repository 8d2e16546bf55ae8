/** The save-file gateway: one serialized line per task, a tolerant line decoder,
    and whole-file load and save. The file itself is abstracted as its sequence of
    lines, or as unreadable; whether it can be opened for writing is a property of
    the environment that the model takes as given. */
module Persistence {
  import opened Wrappers
  import opened DukeTask

  /** The completion field of a finished task. */
  const TaskComplete: string := "1"
  /** The completion field of an unfinished task. */
  const TaskIncomplete: string := "0"

  const InvalidTaskMessage: string := "Arguments cannot be used to construct a valid task."
  const TodoArityMessage: string := "Invalid number of arguments to create a To-do."
  const DeadlineArityMessage: string := "Invalid number of arguments to create a Deadline."
  const EventArityMessage: string := "Invalid number of arguments to create an Event."

  // ---------------------------------------------------------------------------
  // Tokenizing: Java's String.split with the fixed pattern " \| "
  // ---------------------------------------------------------------------------

  /** Whether the text begins with " | ". */
  predicate StartsWithDelimiter(s: string)
  {
    |s| >= 3 && s[0] == ' ' && s[1] == '|' && s[2] == ' '
  }

  /** Cuts the line at every occurrence of the delimiter, scanning left to right
      and never letting two occurrences overlap; keeps every token, empty or not. */
  function RawSplit(s: string): (tokens: seq<string>)
    ensures tokens != []
    decreases |s|
  {
    if |s| < 3 then [s]
    else if StartsWithDelimiter(s) then [""] + RawSplit(s[3..])
    else
      var rest := RawSplit(s[1..]);
      [[s[0]] + rest[0]] + rest[1..]
  }

  /** Joining the tokens of the cut with the delimiter gives back the line:
      the cut loses nothing and adds nothing. */
  lemma {:induction false} RawSplitJoinsBack(s: string)
    ensures Join(RawSplit(s)) == s
    decreases |s|
  {
    if |s| < 3 {
    } else if StartsWithDelimiter(s) {
      var rest := RawSplit(s[3..]);
      assert RawSplit(s) == [""] + rest;
      RawSplitJoinsBack(s[3..]);
      JoinCons("", rest);
      assert s[..3] == Delimiter;
      assert s == s[..3] + s[3..];
    } else {
      var rest := RawSplit(s[1..]);
      assert RawSplit(s) == [[s[0]] + rest[0]] + rest[1..];
      RawSplitJoinsBack(s[1..]);
      JoinConsFirst(s[0], rest);
      assert s == [s[0]] + s[1..];
    }
  }

  /** A leading field joins in front of the rest with one delimiter. */
  lemma JoinCons(x: string, rest: seq<string>)
    requires rest != []
    ensures Join([x] + rest) == x + Delimiter + Join(rest)
  {
    assert ([x] + rest)[1..] == rest;
  }

  /** A character put at the head of the first field heads the joined line. */
  lemma JoinConsFirst(c: char, fields: seq<string>)
    requires fields != []
    ensures Join([[c] + fields[0]] + fields[1..]) == [c] + Join(fields)
  {
    if |fields| > 1 {
      var tail := Join(fields[1..]);
      JoinCons([c] + fields[0], fields[1..]);
      JoinCons(fields[0], fields[1..]);
      assert [fields[0]] + fields[1..] == fields;
      ConcatAssoc([c], fields[0], Delimiter + tail);
      ConcatAssoc([c] + fields[0], Delimiter, tail);
      ConcatAssoc(fields[0], Delimiter, tail);
    }
  }

  lemma ConcatAssoc(a: string, b: string, c: string)
    ensures (a + b) + c == a + (b + c)
  {
  }

  /** Whether " | " occurs in the text at position i. */
  predicate DelimiterAt(s: string, i: int)
  {
    0 <= i && i + 3 <= |s| && s[i] == ' ' && s[i + 1] == '|' && s[i + 2] == ' '
  }

  /** Whether " | " occurs anywhere in the text. */
  predicate HasDelimiter(s: string)
  {
    exists i :: 0 <= i < |s| && DelimiterAt(s, i)
  }

  /** Whether the text ends in " |", the delimiter's first two characters. */
  predicate EndsWithDelimiterHead(s: string)
  {
    |s| >= 2 && s[|s| - 2] == ' ' && s[|s| - 1] == '|'
  }

  /** The cut is made at every delimiter, and at the leftmost of overlapping ones:
      no token holds " | ", and no token but the last ends in " |" (the delimiter
      would then have begun one or two characters earlier). */
  lemma {:induction false} RawSplitCutsEveryDelimiter(s: string)
    ensures forall k :: 0 <= k < |RawSplit(s)| ==> !HasDelimiter(RawSplit(s)[k])
    ensures forall k :: 0 <= k < |RawSplit(s)| - 1 ==> !EndsWithDelimiterHead(RawSplit(s)[k])
    decreases |s|
  {
    var tokens := RawSplit(s);
    if |s| < 3 {
      assert tokens == [s];
      assert forall i :: 0 <= i < |s| ==> !DelimiterAt(s, i);
    } else if StartsWithDelimiter(s) {
      var rest := RawSplit(s[3..]);
      assert tokens == [""] + rest;
      RawSplitCutsEveryDelimiter(s[3..]);
      assert forall k :: 1 <= k < |tokens| ==> tokens[k] == rest[k - 1];
    } else {
      var rest := RawSplit(s[1..]);
      var first := [s[0]] + rest[0];
      assert tokens == [first] + rest[1..];
      RawSplitCutsEveryDelimiter(s[1..]);
      RawSplitJoinsBack(s[1..]);
      JoinStartsWithFirst(rest);
      assert !HasDelimiter(first) by {
        assert |rest[0]| >= 2 ==> first[1] == s[1] && first[2] == s[2];
        forall i | 1 <= i < |first|
          ensures !DelimiterAt(first, i)
        {
          assert !DelimiterAt(rest[0], i - 1);
        }
      }
      if |rest| > 1 {
        assert !EndsWithDelimiterHead(first) by {
          if |rest[0]| == 1 {
            assert s[1..] == rest[0] + Delimiter + Join(rest[1..]);
            assert s[2] == ' ';
          } else if |rest[0]| >= 2 {
            assert !EndsWithDelimiterHead(rest[0]);
          }
        }
      }
      assert forall k :: 1 <= k < |tokens| ==> tokens[k] == rest[k];
    }
  }

  /** The first field begins the joined line. */
  lemma JoinStartsWithFirst(fields: seq<string>)
    requires fields != []
    ensures fields[0] <= Join(fields)
  {
  }

  /** The cut is one token exactly when the line holds no delimiter, and that
      token is then the whole line. */
  lemma RawSplitSingle(s: string)
    ensures |RawSplit(s)| == 1 <==> !HasDelimiter(s)
    ensures |RawSplit(s)| == 1 ==> RawSplit(s) == [s]
  {
    var tokens := RawSplit(s);
    RawSplitJoinsBack(s);
    RawSplitCutsEveryDelimiter(s);
    if |tokens| > 1 {
      assert s == tokens[0] + Delimiter + Join(tokens[1..]);
      assert DelimiterAt(s, |tokens[0]|);
    }
  }

  /** Removes the empty tokens at the end of a token sequence. */
  function DropTrailingEmpty(tokens: seq<string>): (kept: seq<string>)
    ensures kept <= tokens
    ensures kept == [] || kept[|kept| - 1] != ""
    ensures forall i :: |kept| <= i < |tokens| ==> tokens[i] == ""
  {
    if tokens == [] || tokens[|tokens| - 1] != "" then tokens
    else DropTrailingEmpty(tokens[..|tokens| - 1])
  }

  /** line.split(" \\| "): a line with no delimiter is one token; otherwise the
      tokens of the cut, without the empty ones at the end (possibly none at all). */
  function Split(line: string): (tokens: seq<string>)
    ensures |tokens| <= |RawSplit(line)|
    ensures tokens == [line] || tokens == [] || tokens[|tokens| - 1] != ""
  {
    var raw := RawSplit(line);
    RawSplitJoinsBack(line);
    if |raw| == 1 then raw else DropTrailingEmpty(raw)
  }

  /** split keeps a prefix of the cut: the whole line when it holds no delimiter,
      and otherwise all the tokens but the empty ones at the end. */
  lemma SplitIsCutWithoutTrailingEmpties(line: string)
    ensures Split(line) <= RawSplit(line)
    ensures forall i :: |Split(line)| <= i < |RawSplit(line)| ==> RawSplit(line)[i] == ""
    ensures !HasDelimiter(line) ==> Split(line) == [line]
    ensures HasDelimiter(line) ==> Split(line) == [] || Split(line)[|Split(line)| - 1] != ""
  {
    RawSplitSingle(line);
  }

  /** A field followed by the delimiter is cut off as the first token, provided
      the field holds no '|' (so no occurrence can start inside it). */
  lemma {:induction false} RawSplitField(a: string, b: string)
    requires '|' !in a
    ensures RawSplit(a + Delimiter + b) == [a] + RawSplit(b)
    decreases |a|
  {
    var s := a + Delimiter + b;
    if a == [] {
      assert s[3..] == b;
    } else {
      assert s[1] != '|' by {
        if |a| > 1 { assert s[1] == a[1]; } else { assert s[1] == ' '; }
      }
      assert s[1..] == a[1..] + Delimiter + b;
      RawSplitField(a[1..], b);
      assert [a[0]] + a[1..] == a;
    }
  }

  /** A text without '|' is a single token. */
  lemma {:induction false} RawSplitPlain(a: string)
    requires '|' !in a
    ensures RawSplit(a) == [a]
    decreases |a|
  {
    if |a| >= 3 {
      assert a[1] != '|';
      assert '|' !in a[1..];
      RawSplitPlain(a[1..]);
      assert [a[0]] + a[1..] == a;
    }
  }

  /** Cutting a joined line gives back its fields when none of them holds a '|'. */
  lemma {:induction false} RawSplitJoin(fields: seq<string>)
    requires fields != []
    requires forall f :: f in fields ==> '|' !in f
    ensures RawSplit(Join(fields)) == fields
    decreases |fields|
  {
    if |fields| == 1 {
      RawSplitPlain(fields[0]);
    } else {
      assert fields[0] in fields;
      RawSplitField(fields[0], Join(fields[1..]));
      assert forall f :: f in fields[1..] ==> f in fields;
      RawSplitJoin(fields[1..]);
      assert [fields[0]] + fields[1..] == fields;
    }
  }

  /** split inverts the serializer's join: the fields come back exactly, in order,
      when none holds a '|' and the last one is not empty. */
  lemma SplitJoin(fields: seq<string>)
    requires fields != []
    requires forall f :: f in fields ==> '|' !in f
    requires fields[|fields| - 1] != ""
    ensures Split(Join(fields)) == fields
  {
    RawSplitJoin(fields);
  }

  /** The serialized line of serialize(taskId, args...) has exactly 3 + |args|
      fields, under the same conditions. */
  lemma SerializedFieldCount(taskId: string, isDone: bool, description: string, args: seq<string>)
    requires '|' !in taskId && '|' !in description
    requires forall a :: a in args ==> '|' !in a
    requires if args == [] then description != "" else args[|args| - 1] != ""
    ensures |Split(Join([taskId, DoneFlag(isDone), description] + args))| == 3 + |args|
  {
    var fields := [taskId, DoneFlag(isDone), description] + args;
    assert forall f :: f in fields ==> f == taskId || f == DoneFlag(isDone) || f == description || f in args;
    SplitJoin(fields);
  }

  // ---------------------------------------------------------------------------
  // Decoding one line
  // ---------------------------------------------------------------------------

  /** isTask: at least three tokens and a completion field of exactly "0" or "1",
      that is, one of the two completion fields serialize writes. */
  predicate IsTask(args: seq<string>): (ok: bool)
    ensures ok <==> |args| >= 3 && (args[1] == DoneFlag(true) || args[1] == DoneFlag(false))
  {
    |args| >= 3 && (args[1] == TaskComplete || args[1] == TaskIncomplete)
  }

  /** The token sequences that decode to a task: a task shape whose type id is
      T, D or E with exactly 3, 4 or 5 tokens respectively. */
  predicate WellFormed(args: seq<string>)
  {
    IsTask(args)
    && ((args[0] == "T" && |args| == 3)
        || (args[0] == "D" && |args| == 4)
        || (args[0] == "E" && |args| == 5))
  }

  function ReadTodo(args: seq<string>): (r: Result<Task>)
    ensures r.Ok? <==> |args| == 3
    ensures r.Ok? ==> r.value == NewTodo(args[2])
    ensures r.Err? ==> r.message == TodoArityMessage
  {
    if |args| == 3 then Ok(NewTodo(args[2])) else Err(TodoArityMessage)
  }

  function ReadDeadline(args: seq<string>): (r: Result<Task>)
    ensures r.Ok? <==> |args| == 4
    ensures r.Ok? ==> r.value == NewDeadline(args[2], args[3])
    ensures r.Err? ==> r.message == DeadlineArityMessage
  {
    if |args| == 4 then Ok(NewDeadline(args[2], args[3])) else Err(DeadlineArityMessage)
  }

  function ReadEvent(args: seq<string>): (r: Result<Task>)
    ensures r.Ok? <==> |args| == 5
    ensures r.Ok? ==> r.value == NewEvent(args[2], args[3], args[4])
    ensures r.Err? ==> r.message == EventArityMessage
  {
    if |args| == 5 then Ok(NewEvent(args[2], args[3], args[4])) else Err(EventArityMessage)
  }

  /** The part of readTask after the split: check the task shape, dispatch on
      the type id, and mark the task done when its completion field is "1". */
  function ReadTokens(args: seq<string>): (r: Result<Task>)
    ensures r.Ok? <==> WellFormed(args)
    ensures r.Ok? ==> Fields(r.value) == args
    ensures !IsTask(args) ==> r == Err(InvalidTaskMessage)
    ensures IsTask(args) && args[0] !in {"T", "D", "E"} ==> r == Err("Unknown task type: " + args[0])
  {
    if IsTask(args) then
      var read :=
        if args[0] == "T" then ReadTodo(args)
        else if args[0] == "D" then ReadDeadline(args)
        else if args[0] == "E" then ReadEvent(args)
        else Err("Unknown task type: " + args[0]);
      if read.Ok? && args[1] == TaskComplete then Ok(MarkDone(read.value)) else read
    else
      Err(InvalidTaskMessage)
  }

  /** readTask: split the line on the delimiter and decode the tokens. A line
      decodes exactly when its tokens have a task's shape, and then the task's
      fields are those tokens; otherwise the error says which check failed. */
  function ReadTask(line: string): (r: Result<Task>)
    ensures r.Ok? <==> WellFormed(Split(line))
    ensures r.Ok? ==> Fields(r.value) == Split(line)
    ensures !IsTask(Split(line)) ==> r == Err(InvalidTaskMessage)
    ensures IsTask(Split(line)) && Split(line)[0] !in {"T", "D", "E"} ==>
              r == Err("Unknown task type: " + Split(line)[0])
  {
    ReadTokens(Split(line))
  }

  /** The text written n times over. */
  function Repeat(s: string, n: nat): string
  {
    if n == 0 then "" else Repeat(s, n - 1) + s
  }

  /** Empty fields at the end of a joined line add one delimiter each. */
  lemma {:induction false} JoinTrailingEmpty(fields: seq<string>, n: nat)
    requires 1 <= n <= |fields|
    requires forall i :: n <= i < |fields| ==> fields[i] == ""
    ensures Join(fields) == Join(fields[..n]) + Repeat(Delimiter, |fields| - n)
    decreases |fields|
  {
    if |fields| == n {
      assert fields[..n] == fields;
    } else {
      var init := fields[..|fields| - 1];
      JoinTrailingEmpty(init, n);
      assert init[..n] == fields[..n];
      assert fields == init + [""];
      JoinSnoc(init, "");
      assert Join(init) + Delimiter + "" == Join(init) + Delimiter;
      ConcatAssoc(Join(fields[..n]), Repeat(Delimiter, |init| - n), Delimiter);
    }
  }

  /** A line that decodes is its task's serialized line followed by m delimiters,
      one for each empty trailing field that split dropped. */
  lemma ReadTaskReencodes(line: string) returns (m: nat)
    requires ReadTask(line).Ok?
    ensures line == Encode(ReadTask(line).value) + Repeat(Delimiter, m)
  {
    var raw := RawSplit(line);
    var tokens := Split(line);
    RawSplitJoinsBack(line);
    assert raw[..|tokens|] == tokens;
    JoinTrailingEmpty(raw, |tokens|);
    m := |raw| - |tokens|;
  }

  /** A task whose line the decoder can give back: no field holds a '|', and the
      last field is not empty (split drops an empty last token). */
  predicate Storable(t: Task)
  {
    var fields := Fields(t);
    (forall f :: f in fields ==> '|' !in f) && fields[|fields| - 1] != ""
  }

  /** Decoding the serialized line of a storable task gives back that task,
      variant, fields and completion state alike. */
  lemma ReadTaskEncode(t: Task)
    requires Storable(t)
    ensures ReadTask(Encode(t)) == Ok(t)
  {
    SplitJoin(Fields(t));
    var r := ReadTask(Encode(t));
    assert r.Ok?;
    assert Fields(r.value) == Fields(t);
  }

  /** Without the last-field condition the round trip fails: a deadline with an
      empty date is written with a trailing empty field, which split drops, and
      the line no longer has a deadline's four fields. */
  lemma ReadTaskLosesEmptyDeadline(description: string, isDone: bool)
    requires '|' !in description
    ensures ReadTask(Encode(Deadline(description, isDone, ""))).Err?
  {
    var fields := Fields(Deadline(description, isDone, ""));
    assert forall f :: f in fields ==> f == "D" || f == DoneFlag(isDone) || f == description || f == "";
    RawSplitJoin(fields);
    assert fields[..4][..3] == fields[..3];
    var tokens := Split(Encode(Deadline(description, isDone, "")));
    assert tokens == DropTrailingEmpty(fields[..3]);
    assert |tokens| <= 3;
  }

  // ---------------------------------------------------------------------------
  // The whole file
  // ---------------------------------------------------------------------------

  /** The tasks of the successful results, in order; failures are skipped. */
  function Successes(results: seq<Result<Task>>): (tasks: seq<Task>)
    ensures |tasks| <= |results|
  {
    if results == [] then []
    else
      var last := results[|results| - 1];
      Successes(results[..|results| - 1]) + (if last.Ok? then [last.value] else [])
  }

  /** Each line's decoding, position by position. */
  function ReadAll(lines: seq<string>): seq<Result<Task>>
  {
    seq(|lines|, i requires 0 <= i < |lines| => ReadTask(lines[i]))
  }

  /** The tasks load keeps: each line's task, in line order, where the line
      decodes; lines that do not decode are skipped. */
  function Decoded(lines: seq<string>): (tasks: seq<Task>)
    ensures |tasks| <= |lines|
  {
    Successes(ReadAll(lines))
  }

  /** The positions of the successful results, in increasing order. */
  ghost function OkIndices(results: seq<Result<Task>>): (ix: seq<nat>)
    ensures forall k :: 0 <= k < |ix| ==> ix[k] < |results| && results[ix[k]].Ok?
    ensures forall k, m :: 0 <= k < m < |ix| ==> ix[k] < ix[m]
    ensures forall i :: 0 <= i < |results| && results[i].Ok? ==> i in ix
  {
    if results == [] then []
    else
      var init := results[..|results| - 1];
      assert forall i :: 0 <= i < |init| ==> init[i] == results[i];
      OkIndices(init) + (if results[|results| - 1].Ok? then [|results| - 1] else [])
  }

  /** The successes are the values at the successful positions, in order. */
  lemma {:induction false} SuccessesAtOkIndices(results: seq<Result<Task>>)
    ensures |Successes(results)| == |OkIndices(results)|
    ensures forall k :: 0 <= k < |Successes(results)| ==>
              Successes(results)[k] == results[OkIndices(results)[k]].value
  {
    if results != [] {
      var n := |results| - 1;
      var init := results[..n];
      SuccessesAtOkIndices(init);
      var tasks, ix := Successes(init), OkIndices(init);
      assert Successes(results) == tasks + (if results[n].Ok? then [results[n].value] else []);
      assert OkIndices(results) == ix + (if results[n].Ok? then [n] else []);
      forall k | 0 <= k < |tasks|
        ensures Successes(results)[k] == results[OkIndices(results)[k]].value
      {
        assert init[ix[k]] == results[ix[k]];
      }
    }
  }

  /** load's result is the in-order subsequence of the lines that decode: there
      are increasing positions, exactly those of the lines that decode, and the
      k-th task is the task of the k-th such line. */
  lemma DecodedIsSubsequence(lines: seq<string>) returns (ix: seq<nat>)
    ensures |ix| == |Decoded(lines)|
    ensures forall k, m :: 0 <= k < m < |ix| ==> ix[k] < ix[m]
    ensures forall k :: 0 <= k < |ix| ==>
              ix[k] < |lines| && ReadTask(lines[ix[k]]).Ok?
              && Decoded(lines)[k] == ReadTask(lines[ix[k]]).value
    ensures forall i :: 0 <= i < |lines| && ReadTask(lines[i]).Ok? ==> i in ix
  {
    var results := ReadAll(lines);
    SuccessesAtOkIndices(results);
    ix := OkIndices(results);
    assert forall i :: 0 <= i < |lines| ==> results[i] == ReadTask(lines[i]);
  }

  /** When every result succeeds, the successes are all the values, in order. */
  lemma {:induction false} SuccessesAllOk(results: seq<Result<Task>>, tasks: seq<Task>)
    requires |results| == |tasks|
    requires forall i :: 0 <= i < |results| ==> results[i] == Ok(tasks[i])
    ensures Successes(results) == tasks
  {
    if results != [] {
      var n := |results| - 1;
      SuccessesAllOk(results[..n], tasks[..n]);
      assert tasks == tasks[..n] + [tasks[n]];
    }
  }

  /** Collecting the successes of two blocks is collecting each and concatenating. */
  lemma {:induction false} SuccessesAppend(a: seq<Result<Task>>, b: seq<Result<Task>>)
    ensures Successes(a + b) == Successes(a) + Successes(b)
    decreases |b|
  {
    if b == [] {
      assert a + b == a;
    } else {
      var b' := b[..|b| - 1];
      assert (a + b)[..|a + b| - 1] == a + b';
      SuccessesAppend(a, b');
    }
  }

  /** Loading two blocks of lines is loading each and concatenating. */
  lemma DecodedAppend(a: seq<string>, b: seq<string>)
    ensures Decoded(a + b) == Decoded(a) + Decoded(b)
  {
    ReadAllAppend(a, b);
    SuccessesAppend(ReadAll(a), ReadAll(b));
  }

  /** Decoding two blocks of lines is decoding each, position by position. */
  lemma ReadAllAppend(a: seq<string>, b: seq<string>)
    ensures ReadAll(a + b) == ReadAll(a) + ReadAll(b)
  {
    var whole, parts := ReadAll(a + b), ReadAll(a) + ReadAll(b);
    forall i | 0 <= i < |whole|
      ensures whole[i] == parts[i]
    {
      if i < |a| { assert (a + b)[i] == a[i]; } else { assert (a + b)[i] == b[i - |a|]; }
    }
    assert whole == parts;
  }

  /** A single line loads its task when it decodes, and nothing otherwise. */
  lemma DecodedOne(line: string)
    ensures Decoded([line]) == if ReadTask(line).Ok? then [ReadTask(line).value] else []
  {
    assert ReadAll([line]) == [ReadTask(line)];
    assert ReadAll([line])[..0] == [];
  }

  /** Reading one more line adds its task, if it decodes, to the end. */
  lemma DecodedPrefixStep(lines: seq<string>, i: nat)
    requires i < |lines|
    ensures Decoded(lines[..i + 1]) ==
              Decoded(lines[..i]) + if ReadTask(lines[i]).Ok? then [ReadTask(lines[i]).value] else []
  {
    assert lines[..i + 1] == lines[..i] + [lines[i]];
    DecodedAppend(lines[..i], [lines[i]]);
    DecodedOne(lines[i]);
  }

  /** A line that does not decode changes nothing about what is loaded. */
  lemma DecodedSkipsBadLine(a: seq<string>, bad: string, b: seq<string>)
    requires ReadTask(bad).Err?
    ensures Decoded(a + [bad] + b) == Decoded(a + b)
  {
    DecodedAppend(a + [bad], b);
    DecodedAppend(a, [bad]);
    DecodedOne(bad);
    DecodedAppend(a, b);
  }

  /** The lines save writes: line i is the serialized form of task i. */
  function EncodeAll(tasks: seq<Task>): (lines: seq<string>)
    ensures |lines| == |tasks|
    ensures forall i :: 0 <= i < |tasks| ==> lines[i] == Encode(tasks[i])
  {
    if tasks == [] then [] else EncodeAll(tasks[..|tasks| - 1]) + [Encode(tasks[|tasks| - 1])]
  }

  /** Loading what save wrote gives back the saved list, in order, when every
      task is storable. */
  lemma DecodedEncodeAll(tasks: seq<Task>)
    requires forall t :: t in tasks ==> Storable(t)
    ensures Decoded(EncodeAll(tasks)) == tasks
  {
    var results := ReadAll(EncodeAll(tasks));
    forall i | 0 <= i < |tasks|
      ensures results[i] == Ok(tasks[i])
    {
      assert tasks[i] in tasks;
      ReadTaskEncode(tasks[i]);
    }
    SuccessesAllOk(results, tasks);
  }

  /** A line whose completion field is neither "0" nor "1" does not decode. */
  lemma ReadTaskRejectsBadFlag(fields: seq<string>)
    requires |fields| >= 2 && fields[1] != TaskComplete && fields[1] != TaskIncomplete
    requires forall f :: f in fields ==> '|' !in f
    ensures ReadTask(Join(fields)) == Err(InvalidTaskMessage)
  {
    RawSplitJoin(fields);
    var tokens := Split(Join(fields));
    assert |tokens| >= 2 ==> tokens[1] == fields[1];
  }

  /** What the save file holds: its lines, or nothing readable. */
  datatype FileState = Unreadable | Readable(lines: seq<string>)

  /** The storage gateway for one save file. */
  class Storage {
    /** Where the save file lives. */
    const filePath: string
    /** The save file's current contents. */
    var file: FileState
    /** Whether the save file can be opened for writing and every write to it
        succeeds; set by the environment. */
    var writable: bool

    constructor (filePath: string, file: FileState, writable: bool)
      ensures this.filePath == filePath && this.file == file && this.writable == writable
    {
      this.filePath := filePath;
      this.file := file;
      this.writable := writable;
    }

    /** load: fails only when the file cannot be read; otherwise decodes the
        lines one by one, keeping the tasks that decode and skipping the rest. */
    method Load() returns (r: Result<seq<Task>>)
      ensures file.Unreadable? ==> r == Err("Could not read to file: " + filePath)
      ensures file.Readable? ==> r == Ok(Decoded(file.lines))
    {
      if file.Unreadable? {
        return Err("Could not read to file: " + filePath);
      }
      var lines := file.lines;
      ghost var results := ReadAll(lines);
      var tasks: seq<Task> := [];
      var i := 0;
      while i < |lines|
        invariant 0 <= i <= |lines|
        invariant tasks == Successes(results[..i])
      {
        var read := ReadTask(lines[i]);
        assert results[..i + 1][..i] == results[..i];
        if read.Ok? {
          tasks := tasks + [read.value];
        }
        i := i + 1;
      }
      assert results[..|lines|] == results;
      r := Ok(tasks);
    }

    /** save: rewrites the whole file with one serialized line per task, in list
        order; fails, leaving the file as it was, when it cannot be opened. */
    method Save(tasks: seq<Task>) returns (r: Outcome)
      modifies this`file
      ensures writable ==> r == Pass && file == Readable(EncodeAll(tasks))
      ensures !writable ==> r == Fail("Could not write to file: " + filePath) && file == old(file)
    {
      if !writable {
        return Fail("Could not write to file: " + filePath);
      }
      var lines: seq<string> := [];
      for i := 0 to |tasks|
        invariant lines == EncodeAll(tasks[..i])
      {
        var line := Serialize(tasks[i]);
        assert tasks[..i + 1][..i] == tasks[..i];
        lines := lines + [line];
      }
      assert tasks[..|tasks|] == tasks;
      file := Readable(lines);
      r := Pass;
    }
  }
}
