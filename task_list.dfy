/** The task list: an ordered, growable list of task objects that the commands and the codec
    share. Tasks are held by reference, so a task marked through one holder is marked for all. */
module Data {
  import opened Wrappers
  import opened JavaString
  import opened Tasks
  import opened Parser

  /** The list with element i taken out; later elements move down by one. */
  function Removed<T>(s: seq<T>, i: int): (r: seq<T>)
    requires 0 <= i < |s|
    ensures |r| == |s| - 1
    ensures forall j :: 0 <= j < i ==> r[j] == s[j]
    ensures forall j :: i <= j < |r| ==> r[j] == s[j + 1]
  {
    s[..i] + s[i + 1..]
  }

  /** The list with x put in at position i; elements from i on move up by one. */
  function Inserted<T>(s: seq<T>, i: int, x: T): (r: seq<T>)
    requires 0 <= i <= |s|
    ensures |r| == |s| + 1 && r[i] == x
    ensures forall j :: 0 <= j < i ==> r[j] == s[j]
    ensures forall j :: i < j < |r| ==> r[j] == s[j - 1]
  {
    s[..i] + [x] + s[i..]
  }

  /** Putting a removed element back where it was restores the list. */
  lemma InsertRemoved<T>(s: seq<T>, i: int)
    requires 0 <= i < |s|
    ensures Inserted(Removed(s, i), i, s[i]) == s
  {
    var r := Inserted(Removed(s, i), i, s[i]);
    assert forall j :: 0 <= j < |s| ==> r[j] == s[j] by {
      forall j | 0 <= j < |s| ensures r[j] == s[j] {
        if j > i {
          assert r[j] == Removed(s, i)[j - 1];
        }
      }
    }
  }

  /** Removing what was just inserted restores the list. */
  lemma RemoveInserted<T>(s: seq<T>, i: int, x: T)
    requires 0 <= i <= |s|
    ensures Removed(Inserted(s, i, x), i) == s
  {
    var r := Removed(Inserted(s, i, x), i);
    assert forall j :: 0 <= j < |s| ==> r[j] == s[j] by {
      forall j | 0 <= j < |s| ensures r[j] == s[j] {
        if j >= i {
          assert r[j] == Inserted(s, i, x)[j + 1];
        }
      }
    }
  }

  /** Removing the last element undoes an append. */
  lemma RemoveAppended<T>(s: seq<T>, x: T)
    ensures Removed(s + [x], |s|) == s
  {
    assert (s + [x])[..|s|] == s;
  }

  /** The `findTasks` filter: the lower-cased description contains the lower-cased keyword. */
  predicate Matches(t: Task, keyword: string)
  {
    Contains(ToLower(t.description), ToLower(keyword))
  }

  /** r is s with some elements left out, in the same order. */
  predicate Subsequence<T(==)>(r: seq<T>, s: seq<T>)
    decreases |s|
  {
    if r == [] then true
    else if s == [] then false
    else if r[0] == s[0] then Subsequence(r[1..], s[1..])
    else Subsequence(r, s[1..])
  }

  /** The tasks of ts that match the keyword, in list order. */
  function Find(ts: seq<Task>, keyword: string): (r: seq<Task>)
    ensures |r| <= |ts|
    ensures forall i :: 0 <= i < |r| ==> r[i] in ts && Matches(r[i], keyword)
    decreases |ts|
  {
    if ts == [] then []
    else (if Matches(ts[0], keyword) then [ts[0]] else []) + Find(ts[1..], keyword)
  }

  /** Every matching task of the list is found. */
  lemma {:induction false} FindComplete(ts: seq<Task>, keyword: string, t: Task)
    requires t in ts && Matches(t, keyword)
    ensures t in Find(ts, keyword)
    decreases |ts|
  {
    if ts[0] != t {
      assert t in ts[1..];
      FindComplete(ts[1..], keyword, t);
    }
  }

  /** The found tasks keep their order in the list. */
  lemma {:induction false} FindKeepsOrder(ts: seq<Task>, keyword: string)
    ensures Subsequence(Find(ts, keyword), ts)
    decreases |ts|
  {
    if ts != [] {
      var rest := Find(ts[1..], keyword);
      FindKeepsOrder(ts[1..], keyword);
      if Matches(ts[0], keyword) {
        assert Find(ts, keyword) == [ts[0]] + rest;
        assert ([ts[0]] + rest)[1..] == rest;
      } else {
        assert Find(ts, keyword) == rest;
        SkipOne(rest, ts);
      }
    }
  }

  /** A subsequence of the tail is a subsequence of the whole list. */
  lemma {:induction false} SkipOne<T>(r: seq<T>, s: seq<T>)
    requires s != [] && Subsequence(r, s[1..])
    ensures Subsequence(r, s)
    decreases |s|, 0
  {
    if r != [] && r[0] == s[0] {
      DropHead(r, s[1..]);
    }
  }

  /** A subsequence without its first element is still a subsequence. */
  lemma {:induction false} DropHead<T>(r: seq<T>, s: seq<T>)
    requires r != [] && Subsequence(r, s)
    ensures Subsequence(r[1..], s)
    decreases |s|, 1
  {
    if r[0] == s[0] {
      SkipOne(r[1..], s);
    } else {
      DropHead(r, s[1..]);
      SkipOne(r[1..], s);
    }
  }

  /** Searching a concatenation searches both halves. */
  lemma {:induction false} FindConcat(a: seq<Task>, b: seq<Task>, keyword: string)
    ensures Find(a + b, keyword) == Find(a, keyword) + Find(b, keyword)
    decreases |a|
  {
    if a != [] {
      assert (a + b)[1..] == a[1..] + b;
      FindConcat(a[1..], b, keyword);
    } else {
      assert a + b == b;
    }
  }

  /** Every task object is found as many times as it occurs in the list when it matches, and
      never when it does not. */
  lemma {:induction false} FindCounts(ts: seq<Task>, keyword: string, t: Task)
    ensures multiset(Find(ts, keyword))[t] == if Matches(t, keyword) then multiset(ts)[t] else 0
    decreases |ts|
  {
    if ts != [] {
      var head := if Matches(ts[0], keyword) then [ts[0]] else [];
      FindCounts(ts[1..], keyword, t);
      assert Find(ts, keyword) == head + Find(ts[1..], keyword);
      assert ts == [ts[0]] + ts[1..];
      assert multiset(ts) == multiset([ts[0]]) + multiset(ts[1..]);
    }
  }

  /** FindComplete for every position of the list. */
  lemma FindCompleteAt(ts: seq<Task>, keyword: string)
    ensures forall i :: 0 <= i < |ts| && Matches(ts[i], keyword) ==> ts[i] in Find(ts, keyword)
  {
    forall i | 0 <= i < |ts| && Matches(ts[i], keyword) ensures ts[i] in Find(ts, keyword) {
      FindComplete(ts, keyword, ts[i]);
    }
  }

  /** FindCounts for every task object of the list. */
  lemma FindCountsAt(ts: seq<Task>, keyword: string)
    ensures forall i :: 0 <= i < |ts| ==>
      multiset(Find(ts, keyword))[ts[i]] == if Matches(ts[i], keyword) then multiset(ts)[ts[i]] else 0
  {
    forall i | 0 <= i < |ts| {
      FindCounts(ts, keyword, ts[i]);
    }
  }

  /** A list whose every task matches is found whole; one where none does gives nothing. */
  lemma {:induction false} FindAllOrNone(ts: seq<Task>, keyword: string)
    ensures (forall t :: t in ts ==> Matches(t, keyword)) ==> Find(ts, keyword) == ts
    ensures (forall t :: t in ts ==> !Matches(t, keyword)) ==> Find(ts, keyword) == []
    decreases |ts|
  {
    if ts != [] {
      assert forall t :: t in ts[1..] ==> t in ts;
      FindAllOrNone(ts[1..], keyword);
      assert ts == [ts[0]] + ts[1..];
    }
  }

  /** The contents of each task object, in list order. */
  function Values(ts: seq<Task>): (vs: seq<TaskValue>)
    reads ts
    ensures |vs| == |ts|
    ensures forall i :: 0 <= i < |ts| ==> vs[i] == ts[i].Value()
  {
    if ts == [] then [] else Values(ts[..|ts| - 1]) + [ts[|ts| - 1].Value()]
  }

  lemma ValuesAppend(ts: seq<Task>, t: Task)
    ensures Values(ts + [t]) == Values(ts) + [t.Value()]
  {
    assert (ts + [t])[..|ts|] == ts;
  }

  /** No task object sits at two positions of the list. */
  predicate Distinct(ts: seq<Task>)
  {
    forall k, m :: 0 <= k < m < |ts| ==> ts[k] != ts[m]
  }

  /** Appending an object that is not yet in the list keeps the objects distinct. */
  lemma DistinctAppend(ts: seq<Task>, t: Task)
    requires Distinct(ts)
    requires forall k :: 0 <= k < |ts| ==> ts[k] != t
    ensures Distinct(ts + [t])
  {
    var s := ts + [t];
    forall k, m | 0 <= k < m < |s|
      ensures s[k] != s[m]
    {
      if m < |ts| {
        assert s[k] == ts[k] && s[m] == ts[m];
      } else {
        assert s[k] == ts[k] && s[m] == t;
      }
    }
  }

  /** `TaskList`: the tasks in order. */
  class TaskList {
    var tasks: seq<Task>

    /** A new list is empty. */
    constructor ()
      ensures tasks == []
    {
      tasks := [];
    }

    /** `addTask(Task)`: appends the task at the end. */
    method AddTask(t: Task)
      modifies this
      ensures tasks == old(tasks) + [t]
    {
      tasks := tasks + [t];
    }

    /** `addTask(String)`: parses the input and appends the new task; a parse error is
        returned and leaves the list as it was. */
    method AddTaskFromInput(input: Option<string>) returns (err: Option<InputError>)
      modifies this
      ensures ParseTask(input).Err? ==> err == Some(ParseTask(input).error) && tasks == old(tasks)
      ensures ParseTask(input).Ok? ==>
        err.None? && |tasks| == |old(tasks)| + 1 && tasks[..|old(tasks)|] == old(tasks)
        && fresh(tasks[|old(tasks)|]) && tasks[|old(tasks)|].Value() == ParseTask(input).value
    {
      var r := ParseTask(input);
      if r.Err? {
        return Some(r.error);
      }
      var t := NewTask(r.value);
      AddTask(t);
      assert tasks[..|old(tasks)|] == old(tasks);
      return None;
    }

    /** `deleteTask(index)` and `deleteTask(index, showMessage)`: removes exactly the task at
        the index. The flag only decides whether a confirmation is printed. */
    method DeleteTask(index: int, showMessage: bool)
      requires 0 <= index < |tasks|
      modifies this
      ensures tasks == Removed(old(tasks), index)
    {
      tasks := tasks[..index] + tasks[index + 1..];
    }

    /** `insertTask(index, task)`: puts the task in at the index, shifting the rest up. */
    method InsertTask(index: int, t: Task)
      requires 0 <= index <= |tasks|
      modifies this
      ensures tasks == Inserted(old(tasks), index, t)
    {
      tasks := tasks[..index] + [t] + tasks[index..];
    }

    /** `size`. */
    function Size(): (n: nat)
      reads this
      ensures n == |tasks|
    {
      |tasks|
    }

    /** `isEmpty`: true exactly when the size is zero. */
    function IsEmpty(): (b: bool)
      reads this
      ensures b <==> Size() == 0
      ensures b <==> tasks == []
    {
      |tasks| == 0
    }

    /** `getTask(index)`: the index must be in range. */
    function GetTask(index: int): (t: Task)
      reads this
      requires 0 <= index < |tasks|
      ensures t == tasks[index] && t in tasks
    {
      tasks[index]
    }

    /** `findTasks(keyword)`: the keyword must not be blank after trimming. Exactly the tasks
        whose description contains it, ignoring case, in list order. */
    function FindTasks(keyword: string): (r: seq<Task>)
      reads this
      requires Trim(keyword) != []
      ensures forall i :: 0 <= i < |r| ==> r[i] in tasks && Matches(r[i], keyword)
      ensures forall i :: 0 <= i < |tasks| && Matches(tasks[i], keyword) ==> tasks[i] in r
      ensures Subsequence(r, tasks)
      ensures forall i :: 0 <= i < |tasks| ==>
        multiset(r)[tasks[i]] == if Matches(tasks[i], keyword) then multiset(tasks)[tasks[i]] else 0
      ensures r == Find(tasks, keyword)
    {
      FindKeepsOrder(tasks, keyword);
      FindCompleteAt(tasks, keyword);
      FindCountsAt(tasks, keyword);
      Find(tasks, keyword)
    }
  }
}
