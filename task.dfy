/** Tasks: a description that never changes, a done flag that does, and one of three kinds
    (to-do, deadline with a `by` text, event with `from` and `to` texts), each with its own
    display text. The Java subclasses `ToDoTask`, `DeadlineTask` and `EventTask` are the three
    named constructors of one class here. */
module Tasks {
  import opened JavaString

  /** What distinguishes the three kinds of task: the final date strings each adds. */
  datatype Kind = ToDo | Deadline(byDate: string) | Event(fromDate: string, toDate: string)

  /** The contents of a task at one moment, as the parser builds it and the codec stores it. */
  datatype TaskValue = TaskValue(kind: Kind, description: string, isDone: bool)

  /** The constructors' preconditions: a description that is not blank after trimming, and for
      an event, `from` and `to` texts that are not blank either. A deadline's `by` is unchecked. */
  predicate ValidValue(v: TaskValue)
  {
    Trim(v.description) != []
    && (v.kind.Event? ==> Trim(v.kind.fromDate) != [] && Trim(v.kind.toDate) != [])
  }

  /** The status icon. */
  function Icon(isDone: bool): (s: string)
    ensures |s| == 1
    ensures s == "X" <==> isDone
    ensures s == " " <==> !isDone
  {
    if isDone then "X" else " "
  }

  function KindTag(k: Kind): (s: string)
    ensures |s| == 3
  {
    match k
    case ToDo => "[T]"
    case Deadline(_) => "[D]"
    case Event(_, _) => "[E]"
  }

  /** What the kind adds after the description in `toString`. */
  function KindSuffix(k: Kind): string
  {
    match k
    case ToDo => ""
    case Deadline(byDate) => " (by: " + byDate + ")"
    case Event(fromDate, toDate) => " (from: " + fromDate + " to: " + toDate + ")"
  }

  /** `toString`: the kind tag, then `Task.toString()` (`[icon] description`), then the
      kind's dates. */
  function Display(v: TaskValue): string
  {
    KindTag(v.kind) + "[" + Icon(v.isDone) + "] " + v.description + KindSuffix(v.kind)
  }

  /** Where each part of a task's display text sits: the tag in 0..3, the icon at 4, the
      description from 7, and the kind's dates after it. */
  lemma DisplayLayout(v: TaskValue)
    ensures var s, n := Display(v), |v.description|;
      |s| == 7 + n + |KindSuffix(v.kind)|
      && s[..3] == KindTag(v.kind) && s[3] == '[' && s[4] == Icon(v.isDone)[0] && s[5..7] == "] "
      && s[7..7 + n] == v.description && s[7 + n..] == KindSuffix(v.kind)
  {
  }

  /** Marking or unmarking changes one character of the display text: the icon. */
  lemma DisplayChangesOnlyIcon(v: TaskValue, b: bool)
    ensures |Display(v.(isDone := b))| == |Display(v)|
    ensures Display(v.(isDone := b)) == Display(v)[4 := Icon(b)[0]]
  {
    var s, t := Display(v), Display(v.(isDone := b));
    assert s == KindTag(v.kind) + "[" + Icon(v.isDone) + "] " + v.description + KindSuffix(v.kind);
    assert t == KindTag(v.kind) + "[" + Icon(b) + "] " + v.description + KindSuffix(v.kind);
    assert forall i :: 0 <= i < |s| && i != 4 ==> s[i] == t[i];
  }

  /** A task object. `description` and the kind's texts are final; `isDone` is the only state. */
  class Task {
    const description: string
    const kind: Kind
    var isDone: bool

    /** The constructor invariant. Only final fields take part, so nothing can break it. */
    predicate Valid()
    {
      ValidValue(TaskValue(kind, description, false))
    }

    /** `new ToDoTask(description, isDone)`. */
    constructor ToDoTask(description: string, isDone: bool)
      requires Trim(description) != []
      ensures this.description == description && kind == Kind.ToDo && this.isDone == isDone
      ensures Valid()
    {
      this.description := description;
      this.kind := Kind.ToDo;
      this.isDone := isDone;
    }

    /** `new DeadlineTask(description, isDone, by)`: `by` may be any text. */
    constructor DeadlineTask(description: string, isDone: bool, byDate: string)
      requires Trim(description) != []
      ensures this.description == description && kind == Kind.Deadline(byDate) && this.isDone == isDone
      ensures Valid()
    {
      this.description := description;
      this.kind := Kind.Deadline(byDate);
      this.isDone := isDone;
    }

    /** `new EventTask(description, isDone, from, to)`. */
    constructor EventTask(description: string, isDone: bool, fromDate: string, toDate: string)
      requires Trim(description) != [] && Trim(fromDate) != [] && Trim(toDate) != []
      ensures this.description == description && kind == Kind.Event(fromDate, toDate) && this.isDone == isDone
      ensures Valid()
    {
      this.description := description;
      this.kind := Kind.Event(fromDate, toDate);
      this.isDone := isDone;
    }

    /** The task's contents now. */
    function Value(): TaskValue
      reads this
    {
      TaskValue(kind, description, isDone)
    }

    /** `getStatusIcon`: "X" exactly when the task is done, a space otherwise. */
    function StatusIcon(): (s: string)
      reads this
      ensures s == "X" <==> isDone
      ensures s == " " <==> !isDone
    {
      Icon(isDone)
    }

    /** `markAsDone`: done, whatever it was before; nothing else changes. */
    method MarkAsDone()
      modifies this
      ensures isDone
      ensures Value() == old(Value()).(isDone := true)
    {
      isDone := true;
    }

    /** `unmarkAsNotDone`: not done, whatever it was before; nothing else changes. */
    method UnmarkAsNotDone()
      modifies this
      ensures !isDone
      ensures Value() == old(Value()).(isDone := false)
    {
      isDone := false;
    }

    /** `toString`. */
    function ToString(): (s: string)
      reads this
      ensures |s| == 7 + |description| + |KindSuffix(kind)|
      ensures s[..3] == KindTag(kind) && s[3] == '[' && s[4] == StatusIcon()[0] && s[5..7] == "] "
      ensures s[7..7 + |description|] == description
      ensures s[7 + |description|..] == KindSuffix(kind)
    {
      DisplayLayout(Value());
      Display(Value())
    }
  }

  /** A task object with the given contents, made with the constructor of its kind. */
  method NewTask(v: TaskValue) returns (t: Task)
    requires ValidValue(v)
    ensures fresh(t) && t.Value() == v && t.Valid()
  {
    if v.kind.ToDo? {
      t := new Task.ToDoTask(v.description, v.isDone);
    } else if v.kind.Deadline? {
      t := new Task.DeadlineTask(v.description, v.isDone, v.kind.byDate);
    } else {
      t := new Task.EventTask(v.description, v.isDone, v.kind.fromDate, v.kind.toDate);
    }
  }
}
