# nixchats task tracker — Dafny model

This project models the core of nixchats, a personal task tracker written in Java:

- parsing the commands `todo`, `deadline … /by …` and `event … /from … /to …`, and task numbers;
- the three kinds of task and their display text;
- the ISO date handling and the date display formats;
- the task list with its search;
- the line-per-task storage codec, with its save and load loops;
- the four undoable commands (add, delete, mark, unmark).

Java's own string and number primitives are modelled exactly where the program relies on them (module `JavaString`):

- `String.trim` strips every character up to U+0020.
- Regex `\s` is space, tab, newline, vertical tab, form feed and return.
- `split` keeps leading empty pieces and drops trailing ones.
- `split(regex, 2)` cuts at the first `/by`, `/from` or `/to` marker.
- `Integer.parseInt` covers the 32-bit range.
- `String.join`.

Java assertions are taken as enabled, which the tests also assume:

- An `assert` in a constructor or getter becomes a `requires`.
- An `assert` inside storage decoding becomes an error result carrying the assertion's message.
- A thrown `InputException` or `IllegalArgumentException` becomes an `Err` value with the reason and message.

Modules:

| file | module | models |
|---|---|---|
| wrappers.dfy | Wrappers | `Option` and `Result` |
| java_string.dfy | JavaString | trim, lower case, `contains`, whitespace and bar splitting, markers, join, digits, `parseInt` |
| dates.dfy | Dates | `LocalDate` ISO parsing and printing for unsigned 4-digit years, `isBefore`, the `MMM d yyyy` and `MMM dd yyyy` patterns |
| date_formatter.dfy | DateFormatter | `DateFormatter.formatDate`, `isValidDate` |
| task.dfy | Tasks | `Task`, `ToDoTask`, `DeadlineTask`, `EventTask` as one class with three constructors |
| parser.dfy | Parser | `Parser.parseTaskIndex`, `parseTask` and its helpers |
| task_list.dfy | Data | `TaskList` as a class over a sequence of task references |
| storage.dfy | Storage | `Storage.encode`, `decode`, `save`, `load` |
| command.dfy | Command | `AddTaskCommand`, `DeleteTaskCommand`, `MarkTaskCommand`, `UnmarkTaskCommand` |

Where code and documentation disagree, the model follows the code. In particular:

- `DateFormatter` uses the `yyyy` (year-of-era) pattern, so it refuses year 0000, which `LocalDate.parse` accepts.
- The parser prints dates as `MMM d yyyy`; `DateFormatter` prints them as `MMM dd yyyy`.
- Storage decoding accepts any done field and reads only "1" as done.
- The tests at src/test/java/seedu/nixchats/TaskTest.java:160-161 and src/test/java/seedu/nixchats/storage/StorageTest.java:133-142 expect behaviour that the code as written does not have. The model follows the code.

## Model

| member | source | states |
|---|---|---|
| JavaString.Trim | src/main/java/nixchats/parser/Parser.java:62 | the trimmed text starts and ends with a character above U+0020 |
| JavaString.TrimEmptyIff | src/main/java/nixchats/parser/Parser.java:58 | `trim().isEmpty()` holds exactly when every character is at most U+0020 |
| JavaString.TrimIdempotent | src/main/java/nixchats/parser/Parser.java:67 | trimming twice is trimming once |
| JavaString.TrimPadded | src/main/java/nixchats/storage/Storage.java:79 | trimming removes exactly blank padding around text that starts and ends with a visible character |
| JavaString.ToLower | src/main/java/nixchats/parser/Parser.java:63 | same length; each ASCII capital becomes its lower-case letter and nothing else changes |
| JavaString.Contains | src/main/java/nixchats/data/TaskList.java:94 | true exactly when the needle occurs at some position |
| JavaString.SplitOnSpacesTwoWords | src/main/java/nixchats/parser/Parser.java:29 | two space-free words with a space between them split into those two words |
| JavaString.SplitOnSpacesOneWord | src/main/java/nixchats/parser/Parser.java:29 | one word followed by white space splits into that word alone |
| JavaString.SplitOnPipesJoin | src/main/java/nixchats/storage/Storage.java:127 | splitting on bars with any surrounding `\s` inverts joining, whatever the padding |
| JavaString.SplitOnPipesJoinBar | src/main/java/nixchats/storage/Storage.java:127 | a trailing bar gives an empty last piece, which split drops |
| JavaString.SplitAroundMarkerJoin | src/main/java/nixchats/parser/Parser.java:130 | `split("\\s+/by\\s+", 2)` and the like cut `a marker b` into `[a, b]` |
| JavaString.SplitAroundMarkerNoSpace | src/main/java/nixchats/parser/Parser.java:130 | text with no white space is not split at all |
| JavaString.ParseInt | src/main/java/nixchats/parser/Parser.java:34-38 | a parsed value is within the 32-bit range and comes from an optional sign and digits |
| JavaString.ParseIntOfToString | src/main/java/nixchats/parser/Parser.java:35 | every 32-bit integer parses back from its decimal text |
| JavaString.ParseIntOfNegated | src/main/java/nixchats/parser/Parser.java:35 | a minus sign and digits parse to the negated value, down to -2^31 |
| Dates.DaysInMonth | src/main/java/nixchats/parser/Parser.java:104 | month lengths are 28 to 31, and 29 exactly for February of a leap year |
| Dates.ParseIsoDate | src/main/java/nixchats/parser/Parser.java:104 | a parsed date is a real calendar date, read from a `dddd-dd-dd` text |
| Dates.ParseIsoText | src/main/java/nixchats/parser/Parser.java:104 | the ISO text of every date parses back to that date |
| Dates.IsoTextOfParse | src/main/java/nixchats/parser/Parser.java:104 | every text that parses is the ISO text of its date, so parsing is injective |
| Dates.IsBeforeIffEarlier | src/main/java/nixchats/parser/Parser.java:185 | `isBefore` agrees with the day count from a fixed origin; equal dates have equal counts |
| Dates.FormatShort | src/main/java/nixchats/parser/Parser.java:106-107 | the `MMM d yyyy` text is 10 or 11 characters with spaces after the month and before the year |
| Dates.FormatShortInjective | src/main/java/nixchats/parser/Parser.java:190-192 | different dates in years 1 to 9999 display differently |
| Dates.FormatPaddedInjective | src/main/java/nixchats/util/DateFormatter.java:13 | the same for the `MMM dd yyyy` pattern |
| Dates.EraIsNotShown | src/main/java/nixchats/parser/Parser.java:106 | years 0 and 1 display the same, since `yyyy` prints the year of the era |
| Dates.DisplayIsNotIso | src/main/java/nixchats/parser/Parser.java:104-107 | a displayed date never parses as ISO input |
| DateFormatter.ParsePattern | src/main/java/nixchats/util/DateFormatter.java:12 | for unsigned four-digit years, the `yyyy-MM-dd` pattern accepts what ISO parsing accepts, except year 0000 |
| DateFormatter.FormatDate | src/main/java/nixchats/util/DateFormatter.java:22-35 | the result is null exactly when the input is null |
| DateFormatter.FormatDateBlank | src/main/java/nixchats/util/DateFormatter.java:23-25 | null and blank input come back unchanged and are not valid dates |
| DateFormatter.FormatDateOfIso | src/main/java/nixchats/util/DateFormatter.java:27-29 | padded ISO text is valid and is reformatted as `MMM dd yyyy` |
| DateFormatter.PaddedIsNotInput | src/main/java/nixchats/util/DateFormatter.java:28-33 | formatted output is not itself accepted as input |
| DateFormatter.FormatDateChangesIffValid | src/main/java/nixchats/util/DateFormatter.java:22-54 | `formatDate` leaves the text unchanged exactly when `isValidDate` is false |
| DateFormatter.FormatDateIdempotent | src/main/java/nixchats/util/DateFormatter.java:22-35 | formatting twice is formatting once |
| DateFormatter.YearZeroIsRejected | src/main/java/nixchats/util/DateFormatter.java:43-54 | year 0000 parses as ISO but is not a valid date for the pattern |
| Tasks.Icon | src/main/java/nixchats/Task.java:22-24 | the icon is "X" exactly when done and a space exactly when not |
| Tasks.DisplayLayout | src/main/java/nixchats/Task.java:53-56 | where the tag, icon, description and dates sit in the display text |
| Tasks.DisplayChangesOnlyIcon | src/main/java/nixchats/Task.java:29-42 | marking or unmarking changes only the icon character of the display text |
| Tasks.Task.ToDoTask | src/main/java/nixchats/Task.java:15-20 | a blank description is refused; the fields are those given |
| Tasks.Task.DeadlineTask | src/main/java/nixchats/DeadlineTask.java:15-18 | a blank description is refused; `by` is stored unchecked |
| Tasks.Task.EventTask | src/main/java/nixchats/EventTask.java:17-25 | a blank description, `from` or `to` is refused; the fields are those given |
| Tasks.Task.StatusIcon | src/main/java/nixchats/Task.java:22-24 | "X" exactly when done, a space exactly when not |
| Tasks.Task.MarkAsDone | src/main/java/nixchats/Task.java:29-33 | done afterwards, whatever it was; nothing else changes |
| Tasks.Task.UnmarkAsNotDone | src/main/java/nixchats/Task.java:38-42 | not done afterwards, whatever it was; nothing else changes |
| Tasks.Task.ToString | src/main/java/nixchats/EventTask.java:37-40 | the kind tag, `[`, the status icon, `] `, the description, then the kind's ` (by: …)` or ` (from: … to: …)` text, and nothing else |
| Tasks.NewTask | src/main/java/nixchats/parser/Parser.java:72 | a new task object with exactly the given contents |
| Parser.ParseTaskIndex | src/main/java/nixchats/parser/Parser.java:28-46 | a returned index is in range for the list |
| Parser.ParseTaskIndexOfWords | src/main/java/nixchats/parser/Parser.java:29-45 | the order of the checks: not an integer, not positive, above the size, else the number minus one |
| Parser.ParseTaskIndexOfNumber | src/main/java/nixchats/parser/Parser.java:34-45 | `cmd n` for 1 ≤ n ≤ size gives index n - 1 |
| Parser.ParseTaskIndexMissing | src/main/java/nixchats/parser/Parser.java:29-32 | a command with no number gives the missing-number message |
| Parser.ParseTask | src/main/java/nixchats/parser/Parser.java:57-88 | a parsed task is valid and not done; the empty-input reason exactly for null or blank input |
| Parser.ParseTaskEmptyInput | src/main/java/nixchats/parser/Parser.java:58-60 | empty input is reported exactly for null or blank input |
| Parser.ParseTodo | src/main/java/nixchats/parser/Parser.java:66-72 | `todo` in any case, any blank separation and a description give that to-do, not done |
| Parser.ParseTodoEmpty | src/main/java/nixchats/parser/Parser.java:67-71 | `todo` with nothing after it is refused as a missing argument |
| Parser.GetStrings | src/main/java/nixchats/parser/Parser.java:124-136 | on success the description and `by` parts are not blank; errors are missing or invalid argument |
| Parser.GetDeadlineTask | src/main/java/nixchats/parser/Parser.java:98-114 | a parsed deadline is valid and not done; errors are missing or invalid argument |
| Parser.GetEventTask | src/main/java/nixchats/parser/Parser.java:147-159 | a parsed event is valid and not done; errors are missing or invalid argument |
| Parser.GetEventTaskFromParts | src/main/java/nixchats/parser/Parser.java:170-199 | a parsed event is valid; every error is an invalid argument |
| Parser.DeadlineInput | src/main/java/nixchats/parser/Parser.java:76-78 | `deadline` in any case dispatches to the deadline parser |
| Parser.EventInput | src/main/java/nixchats/parser/Parser.java:81-83 | `event` in any case dispatches to the event parser |
| Parser.ParseDeadline | src/main/java/nixchats/parser/Parser.java:98-136 | `deadline d /by t` gives the deadline with the displayed date, or the invalid-date error |
| Parser.ParseDeadlineOfIso | src/main/java/nixchats/parser/Parser.java:104-109 | with an ISO date, the deadline's `by` is that date as `MMM d yyyy` |
| Parser.ParseDeadlineWithoutBy | src/main/java/nixchats/parser/Parser.java:130-134 | one word after `deadline` and no `/by` is refused with the missing-`/by` message |
| Parser.ParseEvent | src/main/java/nixchats/parser/Parser.java:147-199 | `event d /from a /to b` gives the event, the invalid-date error or the end-before-start error |
| Parser.ParseEventOfIso | src/main/java/nixchats/parser/Parser.java:181-194 | with ISO dates, the event is accepted exactly when the end is not before the start |
| Parser.ParseTaskUnknown | src/main/java/nixchats/parser/Parser.java:63-87 | non-blank input whose lower-cased trimmed text starts with none of `todo`, `deadline`, `event` is an unknown command |
| Parser.ParseTaskUnknownLetter | src/main/java/nixchats/parser/Parser.java:85-87 | in particular, input whose first letter is not t, d or e |
| Data.Removed | src/main/java/nixchats/data/TaskList.java:43-47 | one shorter; the elements before the index stay and the later ones move down |
| Data.Inserted | src/test/java/seedu/nixchats/data/TaskListTest.java:97-107 | one longer, with the new element at the index; the rest keep their order |
| Data.InsertRemoved | src/main/java/nixchats/command/DeleteTaskCommand.java:20-32 | re-inserting a removed element at its index restores the list |
| Data.RemoveInserted | src/main/java/nixchats/command/DeleteTaskCommand.java:27-32 | removing what was just inserted restores the list |
| Data.RemoveAppended | src/main/java/nixchats/command/AddTaskCommand.java:19-30 | removing the last element undoes an append |
| Data.Find | src/main/java/nixchats/data/TaskList.java:93-95 | every found task is in the list and matches, ignoring case |
| Data.FindComplete | src/main/java/nixchats/data/TaskList.java:93-95 | every matching task of the list is found |
| Data.FindKeepsOrder | src/main/java/nixchats/data/TaskList.java:93-95 | the found tasks are a subsequence of the list |
| Data.FindConcat | src/main/java/nixchats/data/TaskList.java:93-95 | searching a concatenation searches each half in turn |
| Data.FindCounts | src/main/java/nixchats/data/TaskList.java:93-95 | a matching task object is found as often as it occurs in the list, a non-matching one never |
| Data.FindAllOrNone | src/test/java/seedu/nixchats/data/TaskListTest.java:157-186 | a list where all tasks match is found whole; one where none match gives nothing |
| Data.Values | src/main/java/nixchats/data/TaskList.java:15 | the contents of each task object, position by position |
| Data.DistinctAppend | src/main/java/nixchats/data/TaskList.java:14 | appending an object not yet in the list keeps every object at one position only |
| Data.TaskList.constructor | src/main/java/nixchats/data/TaskList.java:17-19 | a new list is empty |
| Data.TaskList.AddTask | src/main/java/nixchats/data/TaskList.java:34-37 | the task is appended at the end |
| Data.TaskList.AddTaskFromInput | src/main/java/nixchats/data/TaskList.java:26-28 | a parse error leaves the list unchanged; otherwise one new task with the parsed contents is appended |
| Data.TaskList.DeleteTask | src/main/java/nixchats/data/TaskList.java:43-47 | removes exactly the element at the index |
| Data.TaskList.InsertTask | src/test/java/seedu/nixchats/data/TaskListTest.java:97-107 | inserts at the index, shifting the rest up |
| Data.TaskList.Size | src/main/java/nixchats/data/TaskList.java:61-63 | the number of tasks |
| Data.TaskList.IsEmpty | src/main/java/nixchats/data/TaskList.java:49-51 | true exactly when the size is zero |
| Data.TaskList.GetTask | src/main/java/nixchats/data/TaskList.java:70-73 | requires an index in range; the element at that index |
| Data.TaskList.FindTasks | src/main/java/nixchats/data/TaskList.java:89-96 | requires a keyword that is not blank; the result is the filter `Find`: only matching tasks, each matching occurrence once, in list order |
| Storage.DoneField | src/main/java/nixchats/storage/Storage.java:102 | "1" exactly when done |
| Storage.Fields | src/main/java/nixchats/storage/Storage.java:103-111 | three to five fields: the type, the done field, the description, then the dates |
| Storage.Encode | src/main/java/nixchats/storage/Storage.java:98-116 | a nonempty line whose first character names the kind |
| Storage.DecodeParts | src/main/java/nixchats/storage/Storage.java:127-159 | an accepted line gives a valid task with the description, done flag and dates from their fields |
| Storage.Decode | src/main/java/nixchats/storage/Storage.java:123-133 | an accepted line is not blank, has at least three parts, and is done exactly when the second part is "1" |
| Storage.DecodeJoined | src/main/java/nixchats/storage/Storage.java:127 | a line of bar-joined fields decodes as those fields, whatever the padding |
| Storage.DecodeFields | src/main/java/nixchats/storage/Storage.java:136-156 | the fields of a valid task decode to that task |
| Storage.DecodePadded | src/main/java/nixchats/storage/Storage.java:127 | a storable task decodes back wherever `\s` padding sits around the bars |
| Storage.DecodeEncode | src/main/java/nixchats/storage/Storage.java:98-160 | decode inverts encode for storable tasks, and the encoded line is already trimmed |
| Storage.EncodeAll | src/main/java/nixchats/storage/Storage.java:55-58 | one line per task, in order |
| Storage.Then | src/main/java/nixchats/storage/Storage.java:78-85 | the first failure wins; otherwise the tasks of both parts in order |
| Storage.LoadLine | src/main/java/nixchats/storage/Storage.java:79-84 | at most one task; no task and no error exactly for a blank line |
| Storage.LoadLines | src/main/java/nixchats/storage/Storage.java:78-85 | at most one task per line, all valid |
| Storage.LoadLinesConcat | src/main/java/nixchats/storage/Storage.java:78-85 | loading a concatenation loads each part in turn |
| Storage.BlankLineSkipped | src/main/java/nixchats/storage/Storage.java:80-82 | a blank line anywhere changes nothing |
| Storage.LoadLinesPrefixErr | src/main/java/nixchats/storage/Storage.java:83 | once a prefix fails, the whole load fails with the same error |
| Storage.DecodeErrorFailsLoad | src/main/java/nixchats/storage/Storage.java:83 | a bad line after good ones fails the load with that line's error |
| Storage.LoadLineEncode | src/main/java/nixchats/storage/Storage.java:79-84 | an encoded storable task loads as that one task |
| Storage.LoadEncodeAll | src/main/java/nixchats/storage/Storage.java:50-90 | save then load gives back the same tasks in the same order |
| Storage.DecodeUnknownType | src/main/java/nixchats/storage/Storage.java:157-158 | any other type field gives "Unknown task type: " and that field |
| Storage.DecodeAnyDoneText | src/main/java/nixchats/storage/Storage.java:133 | a to-do is done exactly when its done field is "1"; any other text means not done |
| Storage.DecodeDeadlineWithoutBy | src/main/java/nixchats/storage/Storage.java:142 | a deadline line with three fields is refused with the `by` message |
| Storage.DecodeEventWithoutTo | src/main/java/nixchats/storage/Storage.java:149 | an event line with four fields is refused with the dates message |
| Storage.DecodeJoinedBar | src/main/java/nixchats/storage/Storage.java:127 | a trailing bar is dropped by the split |
| Storage.TrimBarLine | src/main/java/nixchats/storage/Storage.java:79-83 | a line ending in a bar and padding trims and decodes as the fields before the bar |
| Storage.EmptyByDoesNotReload | src/main/java/nixchats/storage/Storage.java:107 | a deadline with an empty `by` is valid and saved, but its line fails to load |
| Storage.LoadLineInto | src/main/java/nixchats/storage/Storage.java:79-84 | one pass of the load loop: the line's task is appended, or its error is returned; the list is unchanged unless one new task object is added at its end, and objects stay distinct |
| Storage.AddNewTask | src/main/java/nixchats/storage/Storage.java:83-84 | a new task object holding the decoded value is appended; the objects already in the list keep their places |
| Storage.Load | src/main/java/nixchats/storage/Storage.java:69-90 | fails with the first bad line's error; otherwise a new list of exactly the loaded task values, held by new task objects that are pairwise distinct |
| Storage.Save | src/main/java/nixchats/storage/Storage.java:50-62 | the lines are the tasks' encodings, in list order |
| Command.AddTaskCommand.constructor | src/main/java/nixchats/command/AddTaskCommand.java:13-16 | holds the list and the task |
| Command.AddTaskCommand.Execute | src/main/java/nixchats/command/AddTaskCommand.java:19-21 | the task is appended |
| Command.AddTaskCommand.Undo | src/main/java/nixchats/command/AddTaskCommand.java:24-30 | removes the last element only when it is this task object; otherwise nothing changes |
| Command.AddTaskCommand.GetDescription | src/main/java/nixchats/command/AddTaskCommand.java:33-35 | "add task: " and then the task's description |
| Command.DeleteTaskCommand.constructor | src/main/java/nixchats/command/DeleteTaskCommand.java:14-17 | nothing saved yet |
| Command.DeleteTaskCommand.Execute | src/main/java/nixchats/command/DeleteTaskCommand.java:20-24 | saves the task at the index and removes exactly that element |
| Command.DeleteTaskCommand.Undo | src/main/java/nixchats/command/DeleteTaskCommand.java:27-32 | re-inserts the saved task at the index, or does nothing before `execute` |
| Command.DeleteTaskCommand.GetDescription | src/main/java/nixchats/command/DeleteTaskCommand.java:35-37 | "delete task: " and the saved description, or "task at index " and the index |
| Command.MarkTaskCommand.constructor | src/main/java/nixchats/command/MarkTaskCommand.java:14-17 | the recorded state starts as false |
| Command.MarkTaskCommand.Execute | src/main/java/nixchats/command/MarkTaskCommand.java:20-24 | records the prior done flag, then marks done; only that task object changes |
| Command.MarkTaskCommand.Undo | src/main/java/nixchats/command/MarkTaskCommand.java:27-34 | puts back the recorded flag |
| Command.MarkTaskCommand.GetDescription | src/main/java/nixchats/command/MarkTaskCommand.java:37-39 | "mark task: " and the description of the task at the index |
| Command.UnmarkTaskCommand.constructor | src/main/java/nixchats/command/UnmarkTaskCommand.java:14-17 | the recorded state starts as false |
| Command.UnmarkTaskCommand.Execute | src/main/java/nixchats/command/UnmarkTaskCommand.java:20-24 | records the prior done flag, then marks not done; only that task object changes |
| Command.UnmarkTaskCommand.Undo | src/main/java/nixchats/command/UnmarkTaskCommand.java:27-34 | puts back the recorded flag |
| Command.UnmarkTaskCommand.GetDescription | src/main/java/nixchats/command/UnmarkTaskCommand.java:37-39 | "unmark task: " and the description of the task at the index |
| Command.AddThenUndo | src/test/java/seedu/nixchats/command/CommandTest.java:70-82 | add then undo restores the list |
| Command.DeleteThenUndo | src/test/java/seedu/nixchats/command/CommandTest.java:100-112 | delete then undo restores the same task objects in the same order |
| Command.MarkThenUndo | src/test/java/seedu/nixchats/command/CommandTest.java:140-162 | mark then undo restores the task, whether or not it was done |
| Command.UnmarkThenUndo | src/test/java/seedu/nixchats/command/CommandTest.java:188-212 | unmark then undo restores the task, whether or not it was done |
| Command.MarkTwice | src/test/java/seedu/nixchats/command/CommandTest.java:267-270 | marking twice records "done", so a later undo leaves the task done |
| Command.UnmarkTwice | src/test/java/seedu/nixchats/command/CommandTest.java:273-276 | unmarking twice leaves the task not done, also after undo |
| Command.AddMarkDeleteUndone | src/test/java/seedu/nixchats/command/CommandTest.java:226-258 | add, add, mark, delete, undone in reverse, give the empty list and the first task's old flag back |

## Left out

- `UndoableCommand` is a Java interface; here the four command classes each have `Execute`, `Undo` and `GetDescription`, without a common supertype.
- The three Java task subclasses are modelled as one class with a kind field and three named constructors.
- `ToDoTask.java` is not part of this model; its constructor is taken to be `super(description, isDone)` with a `[T]` display prefix.
- `TaskList.insertTask` and `TaskList.deleteTask(int, boolean)` are not in TaskList.java. They are modelled as list insert and remove, and the flag only decides printing.
- Printing is not modelled. This covers `System.out` in `deleteTask`, `markAsDone` and `unmarkAsNotDone`, and `printTasks`.
- The UI, the CLI loop, `NixChats`, the exceptions' class hierarchy and the `src/main/java/nixchats/Storage.java` duplicate are not part of this model.
- File access is not modelled. `Load` takes the file's lines as a sequence and `Save` returns them; a missing file, I/O errors and line splitting are not modelled.
- The save-then-load round trip needs fields without line breaks or bars, and with no blanks at their ends; nothing else is assumed.
- A null line in `load` is treated as blank, which is what the code does. Lines are never null in the model.
- The iterator of `TaskList` is modelled as the order of its sequence.
- `encode`'s fallback branch (line 114) is not modelled: with three kinds of task it cannot be reached.
- `toLowerCase` and digit recognition are ASCII-only, and a default locale without special casing rules is assumed. Under a Turkish locale, for example, Java lower-cases "DEADLINE" to "deadlıne", which is then an unknown command; the model does not capture this. For `findTasks` the model is also coarser than Java for non-ASCII letters.
- DateFormatter.ParsePattern: accepts only what ISO parsing accepts, apart from year 0000. This leaves out two kinds of input that `ofPattern("yyyy-MM-dd")` accepts. First, its smart resolver clamps days such as `2024-04-31` to the last day of the month; the model refuses them. Second, it accepts years longer than four digits carrying a sign, such as `+10000-01-01`, for which `isValidDate` is true and `formatDate` returns "Jan 01 +10000"; the model refuses them too, and `FormatDate` returns such text unchanged.
- Dates.ParseIsoDate: accepts only unsigned four-digit years. `LocalDate.parse` also accepts signed years and years of 5 to 10 digits, such as `-0001-01-01` (shown as "Jan 1 0002") and `+10000-01-01` (shown as "Jan 1 +10000", since a year of era from 10000 on is printed with a `+` sign). For those inputs `deadline` and `event` give the invalid-date error in the model, where Java accepts the task.
- Month names follow the English locale only.
- Parser.ParseTaskIndex: its contract states only the range of a returned index; the full order of checks is stated by the `ParseTaskIndexOf…` lemmas for the inputs they cover.
- Parser.ParseTask: its contract states validity and the empty-input case. The unknown-command branch is stated in full by ParseTaskUnknown. The `todo`, `deadline` and `event` branches are stated by the `Parse…` lemmas only for descriptions without `/` characters.
