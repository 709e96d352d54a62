/** The save-file codec: one task per line, fields joined by " | " (type tag, done flag,
    description, then the kind's dates); `load` and `save` run over the file's lines. */
module Storage {
  import opened Wrappers
  import opened JavaString
  import opened Tasks
  import opened Data

  /** The done field: "1" for done, "0" otherwise. */
  function DoneField(isDone: bool): (f: string)
    ensures f == "1" <==> isDone
  {
    if isDone then "1" else "0"
  }

  /** The fields `encode` writes, in order. */
  function Fields(v: TaskValue): (f: seq<string>)
    ensures 3 <= |f| <= 5 && f[1] == DoneField(v.isDone) && f[2] == v.description
  {
    match v.kind
    case ToDo => ["T", DoneField(v.isDone), v.description]
    case Deadline(byDate) => ["D", DoneField(v.isDone), v.description, byDate]
    case Event(fromDate, toDate) => ["E", DoneField(v.isDone), v.description, fromDate, toDate]
  }

  /** `encode`: the fields joined with " | "; the line starts with the type tag. */
  function Encode(v: TaskValue): (line: string)
    ensures line != [] && line[0] == (match v.kind case ToDo => 'T' case Deadline(_) => 'D' case Event(_, _) => 'E')
  {
    JoinStartsWithFirst(Fields(v), " | ");
    Join(Fields(v), " | ")
  }

  /** `decode` once the line has been split: the field-count, type and constructor checks in
      the order the code makes them, each failing with its own message. */
  function DecodeParts(parts: seq<string>): (r: Result<TaskValue, string>)
    ensures r.Ok? ==> ValidValue(r.value) && |parts| >= 3 && r.value.description == parts[2]
    ensures r.Ok? ==> (r.value.isDone <==> parts[1] == "1")
    ensures r.Ok? && r.value.kind.ToDo? ==> parts[0] == "T"
    ensures r.Ok? && r.value.kind.Deadline? ==> parts[0] == "D" && |parts| >= 4 && r.value.kind.byDate == parts[3]
    ensures r.Ok? && r.value.kind.Event? ==>
      parts[0] == "E" && |parts| >= 5 && r.value.kind.fromDate == parts[3] && r.value.kind.toDate == parts[4]
  {
    if |parts| < 3 then Err("Line must have at least 3 parts: type, done status, description")
    else if parts[0] == [] then Err("Task type cannot be null or empty")
    else
      var done := parts[1] == "1";
      var desc := parts[2];
      if parts[0] == "T" then
        if Trim(desc) == [] then Err("Task description cannot be empty")
        else Ok(TaskValue(ToDo, desc, done))
      else if parts[0] == "D" then
        if |parts| < 4 then Err("Deadline task must have 'by' date")
        else if Trim(desc) == [] then Err("Task description cannot be empty")
        else Ok(TaskValue(Deadline(parts[3]), desc, done))
      else if parts[0] == "E" then
        if |parts| < 5 then Err("Event task must have 'from' and 'to' dates")
        else if Trim(desc) == [] then Err("Task description cannot be empty")
        else if Trim(parts[3]) == [] then Err("Event 'from' date cannot be empty")
        else if Trim(parts[4]) == [] then Err("Event 'to' date cannot be empty")
        else Ok(TaskValue(Event(parts[3], parts[4]), desc, done))
      else Err("Unknown task type: " + parts[0])
  }

  /** `decode`: a blank line is refused; otherwise the line is split on bars with any
      surrounding `\s` and the parts are checked. */
  function Decode(line: string): (r: Result<TaskValue, string>)
    ensures r.Ok? ==> ValidValue(r.value) && Trim(line) != []
    ensures r.Ok? ==> |SplitOnPipes(line)| >= 3 && (r.value.isDone <==> SplitOnPipes(line)[1] == "1")
  {
    if Trim(line) == [] then Err("Input line cannot be empty") else DecodeParts(SplitOnPipes(line))
  }

  /** A text field that `save` then `load` gives back: not empty, no bar, no line break, and
      nothing that `trim` or `\s` would strip at either end. */
  predicate CleanField(f: string)
  {
    f != [] && Lacks(f, '|') && Lacks(f, '\n') && Lacks(f, '\r')
    && !IsTrimmable(f[0]) && !IsTrimmable(f[|f| - 1])
  }

  /** A task whose every text field is clean. */
  predicate Storable(v: TaskValue)
  {
    CleanField(v.description)
    && (v.kind.Deadline? ==> CleanField(v.kind.byDate))
    && (v.kind.Event? ==> CleanField(v.kind.fromDate) && CleanField(v.kind.toDate))
  }

  /** The fields of a storable task survive splitting, and their join is already trimmed. */
  lemma StorableFields(v: TaskValue, sep: string)
    requires Storable(v)
    ensures AllPipeFields(Fields(v))
    ensures var s := Join(Fields(v), sep); s != [] && !IsTrimmable(s[0]) && !IsTrimmable(s[|s| - 1])
  {
    var f := Fields(v);
    assert forall i :: 0 <= i < |f| ==> CleanField(f[i]);
    JoinStartsWithFirst(f, sep);
    JoinEndsWithLast(f, sep);
  }

  /** Decoding fields joined by a bar with any `\s` padding decodes the fields themselves. */
  lemma DecodeJoined(fields: seq<string>, left: string, right: string)
    requires |fields| >= 1 && AllPipeFields(fields) && !IsTrimmable(fields[0][0])
    requires AllRegexSpace(left) && AllRegexSpace(right)
    ensures Decode(Join(fields, left + "|" + right)) == DecodeParts(fields)
  {
    var line := Join(fields, left + "|" + right);
    JoinStartsWithFirst(fields, left + "|" + right);
    TrimEmptyIff(line);
    assert Trim(line) != [];
    SplitOnPipesJoin(fields, left, right);
    assert Decode(line) == DecodeParts(SplitOnPipes(line));
  }

  /** The checks of `decode` accept the fields `encode` writes for a valid task. */
  lemma DecodeFields(v: TaskValue)
    requires ValidValue(v)
    ensures DecodeParts(Fields(v)) == Ok(v)
  {
  }

  /** Decoding accepts any `\s` padding around the bars: `T|0|x`, `T | 0 | x` and `T |\t0| x`
      give the same task. */
  lemma DecodePadded(v: TaskValue, left: string, right: string)
    requires ValidValue(v) && Storable(v)
    requires AllRegexSpace(left) && AllRegexSpace(right)
    ensures Decode(Join(Fields(v), left + "|" + right)) == Ok(v)
  {
    StorableFields(v, left + "|" + right);
    DecodeJoined(Fields(v), left, right);
    DecodeFields(v);
  }

  /** Round trip: decoding an encoded storable task gives the task back. */
  lemma DecodeEncode(v: TaskValue)
    requires ValidValue(v) && Storable(v)
    ensures Decode(Encode(v)) == Ok(v)
    ensures Trim(Encode(v)) == Encode(v)
  {
    assert " | " == " " + "|" + " ";
    DecodePadded(v, " ", " ");
    StorableFields(v, " | ");
    TrimOfTrimmed(Encode(v));
  }

  /** The lines `save` writes, one per task, in order. */
  function EncodeAll(vs: seq<TaskValue>): (lines: seq<string>)
    ensures |lines| == |vs|
    ensures forall i :: 0 <= i < |vs| ==> lines[i] == Encode(vs[i])
  {
    if vs == [] then [] else EncodeAll(vs[..|vs| - 1]) + [Encode(vs[|vs| - 1])]
  }

  /** The result of loading a then b: the first error, or both lists of tasks in order. */
  function Then(a: Result<seq<TaskValue>, string>, b: Result<seq<TaskValue>, string>): (r: Result<seq<TaskValue>, string>)
    ensures r.Ok? <==> a.Ok? && b.Ok?
    ensures r.Ok? ==> r.value == a.value + b.value
    ensures a.Err? ==> r == a
  {
    if a.Err? then a else if b.Err? then b else Ok(a.value + b.value)
  }

  /** What `load` makes of one line: nothing if it is blank after trimming, otherwise the
      decoded task or the decoding error. */
  function LoadLine(raw: string): (r: Result<seq<TaskValue>, string>)
    ensures r.Ok? ==> |r.value| <= 1 && forall i :: 0 <= i < |r.value| ==> ValidValue(r.value[i])
    ensures r.Ok? && r.value == [] <==> Trim(raw) == []
  {
    var line := Trim(raw);
    if line == [] then Ok([])
    else
      match Decode(line)
      case Err(e) => Err(e)
      case Ok(v) => Ok([v])
  }

  /** What `load` makes of the lines: line by line in order, the first line that fails to
      decode failing the whole load. */
  function LoadLines(lines: seq<string>): (r: Result<seq<TaskValue>, string>)
    ensures r.Ok? ==> |r.value| <= |lines|
    ensures r.Ok? ==> forall i :: 0 <= i < |r.value| ==> ValidValue(r.value[i])
  {
    if lines == [] then Ok([]) else Then(LoadLines(lines[..|lines| - 1]), LoadLine(lines[|lines| - 1]))
  }

  lemma ThenAssoc(x: Result<seq<TaskValue>, string>, y: Result<seq<TaskValue>, string>, z: Result<seq<TaskValue>, string>)
    ensures Then(Then(x, y), z) == Then(x, Then(y, z))
  {
    if x.Ok? && y.Ok? && z.Ok? {
      assert (x.value + y.value) + z.value == x.value + (y.value + z.value);
    }
  }

  lemma ThenUnit(x: Result<seq<TaskValue>, string>)
    ensures Then(Ok([]), x) == x && Then(x, Ok([])) == x
  {
    if x.Ok? {
      assert [] + x.value == x.value && x.value + [] == x.value;
    }
  }

  /** Loading a concatenation loads each part in turn. */
  lemma {:induction false} LoadLinesConcat(a: seq<string>, b: seq<string>)
    ensures LoadLines(a + b) == Then(LoadLines(a), LoadLines(b))
    decreases |b|
  {
    if b == [] {
      assert a + b == a;
      ThenUnit(LoadLines(a));
    } else {
      var n := |b| - 1;
      var p, z := a + b[..n], LoadLine(b[n]);
      assert (a + b)[..|a + b| - 1] == p && (a + b)[|a + b| - 1] == b[n];
      assert LoadLines(a + b) == Then(LoadLines(p), z);
      assert LoadLines(b) == Then(LoadLines(b[..n]), z);
      LoadLinesConcat(a, b[..n]);
      ThenAssoc(LoadLines(a), LoadLines(b[..n]), z);
    }
  }

  /** Loading one more line. */
  lemma LoadAppendLine(lines: seq<string>, line: string)
    ensures LoadLines(lines + [line]) == Then(LoadLines(lines), LoadLine(line))
  {
    var s := lines + [line];
    assert s[..|s| - 1] == lines && s[|s| - 1] == line;
  }

  /** A line that loads one task adds that task after those of the lines before it. */
  lemma LoadStep(prefix: seq<string>, line: string, vs: seq<TaskValue>, v: TaskValue)
    requires LoadLines(prefix) == Ok(vs) && LoadLine(line) == Ok([v])
    ensures LoadLines(prefix + [line]) == Ok(vs + [v])
  {
    LoadAppendLine(prefix, line);
  }

  /** Loading one line. */
  lemma LoadSingle(line: string)
    ensures LoadLines([line]) == LoadLine(line)
  {
    var z := LoadLine(line);
    assert [line][..0] == [] && [line][0] == line;
    assert LoadLines([line]) == Then(LoadLines([]), z);
    ThenUnit(z);
  }

  /** A line that is blank after trimming is skipped wherever it stands. */
  lemma BlankLineSkipped(a: seq<string>, blank: string, b: seq<string>)
    requires IsTrimBlank(blank)
    ensures LoadLines(a + [blank] + b) == LoadLines(a + b)
  {
    TrimEmptyIff(blank);
    assert LoadLine(blank) == Ok([]);
    LoadSingle(blank);
    LoadLinesConcat(a, [blank]);
    ThenUnit(LoadLines(a));
    LoadLinesConcat(a + [blank], b);
    LoadLinesConcat(a, b);
  }

  /** A failing load is not rescued by more lines after it. */
  lemma LoadLinesErrConcat(a: seq<string>, b: seq<string>)
    requires LoadLines(a).Err?
    ensures LoadLines(a + b) == LoadLines(a)
  {
    LoadLinesConcat(a, b);
  }

  /** Once a prefix of the lines fails, the whole load fails with that prefix's error. */
  lemma LoadLinesPrefixErr(lines: seq<string>, i: nat)
    requires i <= |lines| && LoadLines(lines[..i]).Err?
    ensures LoadLines(lines) == LoadLines(lines[..i])
  {
    SplitAt(lines, i);
    LoadLinesErrConcat(lines[..i], lines[i..]);
  }

  /** An encoded storable task loads back as itself. */
  lemma LoadLineEncode(v: TaskValue)
    requires ValidValue(v) && Storable(v)
    ensures LoadLine(Encode(v)) == Ok([v])
  {
    var line := Encode(v);
    DecodeEncode(v);
    assert Trim(line) == line && line != [];
    assert LoadLine(line) == (match Decode(line) case Err(e) => Err(e) case Ok(w) => Ok([w]));
  }

  lemma PrefixStep<T>(s: seq<T>, i: nat)
    requires i < |s|
    ensures s[..i + 1] == s[..i] + [s[i]]
  {
  }

  lemma SplitAt<T>(s: seq<T>, i: nat)
    requires i <= |s|
    ensures s[..i] + s[i..] == s
  {
  }

  lemma SplitLast<T>(s: seq<T>)
    requires s != []
    ensures s[..|s| - 1] + [s[|s| - 1]] == s
  {
  }

  /** `save` then `load` gives back the same tasks, in the same order. */
  lemma {:induction false} LoadEncodeAll(vs: seq<TaskValue>)
    requires forall i :: 0 <= i < |vs| ==> ValidValue(vs[i]) && Storable(vs[i])
    ensures LoadLines(EncodeAll(vs)) == Ok(vs)
    decreases |vs|
  {
    if vs != [] {
      var n := |vs| - 1;
      var prefix, line := EncodeAll(vs[..n]), Encode(vs[n]);
      assert EncodeAll(vs) == prefix + [line];
      LoadEncodeAll(vs[..n]);
      LoadLineEncode(vs[n]);
      LoadStep(prefix, line, vs[..n], vs[n]);
      SplitLast(vs);
    }
  }

  /** A line that fails to decode, such as one with an unknown type tag, fails the whole
      load with its error, whatever comes after it. */
  lemma DecodeErrorFailsLoad(a: seq<string>, line: string, b: seq<string>)
    requires LoadLines(a).Ok? && LoadLine(line).Err?
    ensures LoadLines(a + [line] + b) == LoadLine(line)
  {
    LoadSingle(line);
    LoadLinesConcat(a, [line]);
    LoadLinesConcat(a + [line], b);
  }

  /** A line whose type tag is not T, D or E is refused with an unknown-type error, as
      `INVALID|FORMAT|LINE` is. */
  lemma DecodeUnknownType(fields: seq<string>, left: string, right: string)
    requires |fields| >= 3 && AllPipeFields(fields) && !IsTrimmable(fields[0][0])
    requires fields[0] != "T" && fields[0] != "D" && fields[0] != "E"
    requires AllRegexSpace(left) && AllRegexSpace(right)
    ensures Decode(Join(fields, left + "|" + right)) == Err("Unknown task type: " + fields[0])
  {
    DecodeJoined(fields, left, right);
  }

  /** Any done field other than "1" reads as not done, as in `T|invalid_status|task`. */
  lemma DecodeAnyDoneText(doneText: string, desc: string, left: string, right: string)
    requires IsPipeField(doneText) && IsPipeField(desc) && Trim(desc) != []
    requires AllRegexSpace(left) && AllRegexSpace(right)
    ensures Decode(Join(["T", doneText, desc], left + "|" + right)) == Ok(TaskValue(ToDo, desc, doneText == "1"))
  {
    var f := ["T", doneText, desc];
    assert AllPipeFields(f) by {
      assert IsPipeField(f[0]) && IsPipeField(f[1]) && IsPipeField(f[2]);
    }
    DecodeJoined(f, left, right);
  }

  /** A deadline line with only three fields (no `by`) is refused, whatever the padding. */
  lemma DecodeDeadlineWithoutBy(fields: seq<string>, left: string, right: string)
    requires |fields| == 3 && AllPipeFields(fields) && fields[0] == "D"
    requires AllRegexSpace(left) && AllRegexSpace(right)
    ensures Decode(Join(fields, left + "|" + right)) == Err("Deadline task must have 'by' date")
  {
    assert fields[0][0] == 'D';
    assert DecodeParts(fields) == Err("Deadline task must have 'by' date");
    DecodeJoined(fields, left, right);
  }

  /** An event line with only four fields (no `to`) is refused, whatever the padding. */
  lemma DecodeEventWithoutTo(fields: seq<string>, left: string, right: string)
    requires |fields| == 4 && AllPipeFields(fields) && fields[0] == "E"
    requires AllRegexSpace(left) && AllRegexSpace(right)
    ensures Decode(Join(fields, left + "|" + right)) == Err("Event task must have 'from' and 'to' dates")
  {
    assert fields[0][0] == 'E';
    assert DecodeParts(fields) == Err("Event task must have 'from' and 'to' dates");
    DecodeJoined(fields, left, right);
  }

  /** The line `encode` writes for a deadline with an empty `by`: it ends in a padded bar. */
  lemma EmptyByLine(desc: string, isDone: bool)
    ensures var f := ["D", DoneField(isDone), desc];
      Encode(TaskValue(Deadline(""), desc, isDone)) == Join(f, " " + "|" + " ") + " " + "|" + " "
  {
    var f := ["D", DoneField(isDone), desc];
    var sep := " " + "|" + " ";
    assert sep == " | ";
    var j := Join(f, sep);
    assert Fields(TaskValue(Deadline(""), desc, isDone)) == f + [""];
    JoinSnoc(f, "", sep);
    assert j + sep + "" == j + " " + "|" + " ";
  }

  /** A line whose fields end in a trailing bar decodes as the fields before the bar. */
  lemma DecodeJoinedBar(fields: seq<string>, left: string, right: string)
    requires |fields| >= 1 && AllPipeFields(fields) && !IsTrimmable(fields[0][0])
    requires AllRegexSpace(left) && AllRegexSpace(right)
    ensures Decode(Join(fields, left + "|" + right) + left + "|") == DecodeParts(fields)
  {
    var j := Join(fields, left + "|" + right);
    var line := j + left + "|";
    JoinStartsWithFirst(fields, left + "|" + right);
    assert line[0] == j[0];
    TrimEmptyIff(line);
    SplitOnPipesJoinBar(fields, left, right);
  }

  /** The same line followed by white space trims to the line up to the bar. */
  lemma TrimBarLine(fields: seq<string>, left: string, right: string, raw: string)
    requires |fields| >= 1 && AllPipeFields(fields) && !IsTrimmable(fields[0][0])
    requires AllRegexSpace(left) && AllRegexSpace(right)
    requires raw == Join(fields, left + "|" + right) + left + "|" + right
    ensures Trim(raw) != [] && Decode(Trim(raw)) == DecodeParts(fields)
  {
    var j := Join(fields, left + "|" + right);
    var line := j + left + "|";
    assert raw == [] + line + right;
    JoinStartsWithFirst(fields, left + "|" + right);
    assert line[0] == j[0];
    assert line[|line| - 1] == '|';
    assert IsTrimBlank(right) by {
      assert forall i :: 0 <= i < |right| ==> IsRegexSpace(right[i]);
    }
    TrimPadded(raw, [], line, right);
    DecodeJoinedBar(fields, left, right);
  }

  /** A deadline whose `by` text is empty is a valid task and is encoded, but its line does
      not load again: trimming leaves a bar at the end, splitting drops the empty piece after
      it, and the deadline's field count check fails. */
  lemma EmptyByDoesNotReload(desc: string, isDone: bool)
    requires CleanField(desc)
    ensures ValidValue(TaskValue(Deadline(""), desc, isDone))
    ensures LoadLine(Encode(TaskValue(Deadline(""), desc, isDone))) == Err("Deadline task must have 'by' date")
  {
    TrimOfTrimmed(desc);
    var f := ["D", DoneField(isDone), desc];
    assert AllPipeFields(f) by {
      assert IsPipeField(f[0]) && IsPipeField(f[1]) && IsPipeField(f[2]);
    }
    EmptyByLine(desc, isDone);
    TrimBarLine(f, " ", " ", Encode(TaskValue(Deadline(""), desc, isDone)));
  }

  /** One pass of `load`'s loop: a blank line is skipped, any other is decoded and its task
      appended to the list, or its decoding error reported. */
  method LoadLineInto(list: TaskList, raw: string) returns (err: Option<string>, added: Option<Task>)
    modifies list
    ensures LoadLine(raw).Err? ==> err == Some(LoadLine(raw).error)
    ensures LoadLine(raw).Ok? ==> err.None? && Values(list.tasks) == old(Values(list.tasks)) + LoadLine(raw).value
    ensures added.None? ==> list.tasks == old(list.tasks)
    ensures added.Some? ==> err.None? && fresh(added.value) && list.tasks == old(list.tasks) + [added.value]
    ensures Distinct(old(list.tasks)) ==> Distinct(list.tasks)
  {
    var line := Trim(raw);
    if line == [] {
      assert LoadLine(raw) == Ok([]);
      assert old(Values(list.tasks)) + [] == Values(list.tasks);
      return None, None;
    }
    var d := Decode(line);
    assert LoadLine(raw) == (match d case Err(e) => Err(e) case Ok(v) => Ok([v]));
    if d.Err? {
      return Some(d.error), None;
    }
    ghost var before := list.tasks;
    var t := AddNewTask(list, d.value);
    if Distinct(before) {
      DistinctAppend(before, t);
    }
    return None, Some(t);
  }

  /** `tasks.add(decode(line))`: a new task object holding the value goes at the end of the
      list; the objects already there keep their places. */
  method AddNewTask(list: TaskList, v: TaskValue) returns (t: Task)
    requires ValidValue(v)
    modifies list
    ensures fresh(t) && t.Value() == v
    ensures list.tasks == old(list.tasks) + [t]
    ensures Values(list.tasks) == old(Values(list.tasks)) + [v]
  {
    ghost var before := list.tasks;
    ghost var loaded := Values(before);
    t := NewTask(v);
    assert Values(before) == loaded;
    list.AddTask(t);
    assert Values(before) == loaded;
    ValuesAppend(before, t);
  }

  /** `load`: reads the lines into a new list, allocating one task object per loaded task, so
      no two positions share an object and no object existed before. */
  method Load(lines: seq<string>) returns (r: Result<TaskList, string>)
    ensures LoadLines(lines).Err? ==> r.Err? && r.error == LoadLines(lines).error
    ensures LoadLines(lines).Ok? ==> r.Ok? && fresh(r.value) && Values(r.value.tasks) == LoadLines(lines).value
    ensures r.Ok? ==> fresh(r.value.tasks)
    ensures r.Ok? ==> Distinct(r.value.tasks)
  {
    var list := new TaskList();
    var i := 0;
    assert lines[..0] == [] && list.tasks == [];
    assert LoadLines(lines[..0]) == Ok([]) == Ok(Values(list.tasks));
    while i < |lines|
      invariant 0 <= i <= |lines|
      invariant fresh(list)
      invariant LoadLines(lines[..i]) == Ok(Values(list.tasks))
      invariant fresh(list.tasks)
      invariant Distinct(list.tasks)
    {
      PrefixStep(lines, i);
      LoadAppendLine(lines[..i], lines[i]);
      ghost var loaded, step := Values(list.tasks), LoadLine(lines[i]);
      var err, added := LoadLineInto(list, lines[i]);
      if err.Some? {
        LoadLinesPrefixErr(lines, i + 1);
        return Err(err.value);
      }
      assert Values(list.tasks) == loaded + step.value;
      assert LoadLines(lines[..i + 1]) == Ok(loaded + step.value);
      i := i + 1;
    }
    assert lines[..i] == lines;
    return Ok(list);
  }

  /** `save`: one encoded line per task, in list order. */
  method Save(list: TaskList) returns (lines: seq<string>)
    ensures lines == EncodeAll(Values(list.tasks))
  {
    lines := [];
    var i := 0;
    while i < |list.tasks|
      invariant 0 <= i <= |list.tasks|
      invariant |lines| == i
      invariant forall k :: 0 <= k < i ==> lines[k] == Encode(list.tasks[k].Value())
    {
      lines := lines + [Encode(list.tasks[i].Value())];
      i := i + 1;
    }
    assert lines == EncodeAll(Values(list.tasks));
  }
}
