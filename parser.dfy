/** The command-line parser: `mark 2`-style task numbers, and the `todo`, `deadline` and `event`
    commands that describe a new task. A thrown exception is an `Err` result here; the error
    of `parseTask` carries the reason tag and the message the user sees. */
module Parser {
  import opened Wrappers
  import opened JavaString
  import opened Dates
  import opened Tasks

  /** `InputException.Reason`. */
  datatype Reason = UnknownCommand | MissingArgument | InvalidArgument | EmptyInput

  /** `InputException`: a reason and a message. */
  datatype InputError = InputError(reason: Reason, message: string)

  const MissingIndexMessage: string := "Please provide the task number, e.g., \"mark 2\"."
  const NotIntegerMessage: string := "Task number must be a positive integer."
  const NotPositiveMessage: string := "Task number must be greater than zero."

  function OutOfRangeMessage(size: int): string
  {
    "Task number out of range. You have " + IntToString(size) + " task(s)."
  }

  const EmptyInputMessage: string := "Please enter a command."
  const UnknownCommandMessage: string := "I'm sorry, but I don't know what that means."
  const EmptyTodoMessage: string := "The description of a todo cannot be empty."
  const EmptyDeadlineMessage: string :=
    "The description of a deadline cannot be empty. Usage: deadline <desc> /by <when>"
  const MissingByMessage: string := "Missing '/by'. Usage: deadline <desc> /by <when>"
  const InvalidDateMessage: string := "Invalid date format. Please use yyyy-MM-dd (e.g., 2025-01-31)."
  const EmptyEventMessage: string :=
    "The description of an event cannot be empty. Usage: event <desc> /from <start> /to <end>"
  const MissingFromMessage: string := "Missing '/from'. Usage: event <desc> /from <start> /to <end>"
  const MissingToMessage: string := "Missing '/to'. Usage: event <desc> /from <start> /to <end>"
  const EndBeforeStartMessage: string := "End date must be on or after the start date."

  // ---------------------------------------------------------------------------------------------
  // Task numbers

  /** `parseTaskIndex(line, size)`: the second whitespace-separated word as a 1-based task
      number, checked in a fixed order, and returned 0-based. */
  function ParseTaskIndex(line: string, size: int): (r: Result<int, string>)
    ensures r.Ok? ==> 0 <= r.value < size
  {
    var parts := SplitOnSpaces(line);
    if |parts| < 2 || IsBlank(parts[1]) then Err(MissingIndexMessage)
    else
      match ParseInt(parts[1])
      case None => Err(NotIntegerMessage)
      case Some(n) =>
        if n <= 0 then Err(NotPositiveMessage)
        else if n > size then Err(OutOfRangeMessage(size))
        else Ok(n - 1)
  }

  /** For a command word and one argument word, the checks run in their order: not a number,
      then not positive, then beyond the list; a number in range gives its 0-based index. */
  lemma ParseTaskIndexOfWords(cmd: string, arg: string, size: int)
    requires cmd != [] && HasNoRegexSpace(cmd)
    requires arg != [] && HasNoRegexSpace(arg) && !IsBlank(arg)
    ensures ParseTaskIndex(cmd + " " + arg, size) ==
      match ParseInt(arg)
      case None => Err(NotIntegerMessage)
      case Some(n) =>
        if n <= 0 then Err(NotPositiveMessage)
        else if n > size then Err(OutOfRangeMessage(size))
        else Ok(n - 1)
  {
    SplitOnSpacesTwoWords(cmd, arg);
  }

  /** `mark n` with 1 <= n <= size selects index n - 1. */
  lemma ParseTaskIndexOfNumber(cmd: string, n: int, size: int)
    requires cmd != [] && HasNoRegexSpace(cmd)
    requires 1 <= n <= size && n <= IntMax
    ensures ParseTaskIndex(cmd + " " + IntToString(n), size) == Ok(n - 1)
  {
    var arg := IntToString(n);
    assert arg == NatToString(n);
    assert !IsRegexSpace(arg[0]) && !IsJavaWhitespace(arg[0]);
    ParseIntOfToString(n);
    ParseTaskIndexOfWords(cmd, arg, size);
  }

  /** A command word with nothing but `\s` after it (`mark `, `unmark   `, `mark`) has no task
      number. */
  lemma ParseTaskIndexMissing(cmd: string, pad: string, size: int)
    requires cmd != [] && HasNoRegexSpace(cmd) && AllRegexSpace(pad)
    ensures ParseTaskIndex(cmd + pad, size) == Err(MissingIndexMessage)
  {
    if pad == [] {
      assert cmd + pad == cmd;
      SplitOnSpacesNoSpace(cmd);
    } else {
      SplitOnSpacesOneWord(cmd, pad);
    }
  }

  // ---------------------------------------------------------------------------------------------
  // New tasks

  /** `parseTask(input)`: the keyword is a case-insensitive prefix of the trimmed input, tried
      in the order todo, deadline, event. */
  function ParseTask(input: Option<string>): (r: Result<TaskValue, InputError>)
    ensures r.Ok? ==> ValidValue(r.value) && !r.value.isDone
    ensures r.Err? ==> (r.error.reason == EmptyInput <==> input.None? || Trim(input.value) == [])
  {
    if input.None? || Trim(input.value) == [] then Err(InputError(EmptyInput, EmptyInputMessage))
    else
      var trimmed := Trim(input.value);
      var lower := ToLower(trimmed);
      if StartsWith(lower, "todo") then
        var desc := if |trimmed| <= 4 then "" else Trim(trimmed[4..]);
        if desc == [] then Err(InputError(MissingArgument, EmptyTodoMessage))
        else
          TrimIdempotent(trimmed[4..]);
          Ok(TaskValue(ToDo, desc, false))
      else if StartsWith(lower, "deadline") then GetDeadlineTask(trimmed)
      else if StartsWith(lower, "event") then GetEventTask(trimmed)
      else Err(InputError(UnknownCommand, UnknownCommandMessage))
  }

  /** `getStrings`: the text after `deadline`, split once around the first `/by` that has `\s`
      on both sides; both sides must be non-blank. */
  function GetStrings(trimmed: string): (r: Result<seq<string>, InputError>)
    ensures r.Ok? ==> |r.value| == 2 && Trim(r.value[0]) != [] && Trim(r.value[1]) != []
    ensures r.Err? ==> r.error.reason == MissingArgument || r.error.reason == InvalidArgument
  {
    var rest := if |trimmed| <= 8 then "" else Trim(trimmed[8..]);
    if rest == [] then Err(InputError(MissingArgument, EmptyDeadlineMessage))
    else
      var parts := SplitAroundMarker(rest, "/by");
      if |parts| != 2 || Trim(parts[0]) == [] || Trim(parts[1]) == [] then
        Err(InputError(InvalidArgument, MissingByMessage))
      else Ok(parts)
  }

  /** A displayed date is never blank. */
  lemma DisplayedDateNotBlank(d: Date)
    requires ValidDate(d)
    ensures Trim(FormatShort(d)) != []
  {
    TrimOfTrimmed(FormatShort(d));
  }

  /** `getDeadlineTask`: the `by` text must be an ISO date, and is stored as `MMM d yyyy`. */
  function GetDeadlineTask(trimmed: string): (r: Result<TaskValue, InputError>)
    ensures r.Ok? ==> ValidValue(r.value) && !r.value.isDone && r.value.kind.Deadline?
    ensures r.Err? ==> r.error.reason == MissingArgument || r.error.reason == InvalidArgument
  {
    match GetStrings(trimmed)
    case Err(e) => Err(e)
    case Ok(parts) =>
      var desc := Trim(parts[0]);
      var byText := Trim(parts[1]);
      match ParseIsoDate(byText)
      case None => Err(InputError(InvalidArgument, InvalidDateMessage))
      case Some(d) =>
        TrimIdempotent(parts[0]);
        Ok(TaskValue(Deadline(FormatShort(d)), desc, false))
  }

  /** `getEventTask(String)`: the text after `event`, split once around the first `/from`. */
  function GetEventTask(trimmed: string): (r: Result<TaskValue, InputError>)
    ensures r.Ok? ==> ValidValue(r.value) && !r.value.isDone && r.value.kind.Event?
    ensures r.Err? ==> r.error.reason == MissingArgument || r.error.reason == InvalidArgument
  {
    var rest := if |trimmed| <= 5 then "" else Trim(trimmed[5..]);
    if rest == [] then Err(InputError(MissingArgument, EmptyEventMessage))
    else
      var fromParts := SplitAroundMarker(rest, "/from");
      if |fromParts| != 2 || Trim(fromParts[0]) == [] then Err(InputError(InvalidArgument, MissingFromMessage))
      else GetEventTaskFromParts(fromParts)
  }

  /** `getEventTask(String[])`: the part after `/from` split once around the first `/to`; both
      dates must be ISO dates and the end must not be before the start. */
  function GetEventTaskFromParts(fromParts: seq<string>): (r: Result<TaskValue, InputError>)
    requires |fromParts| == 2 && Trim(fromParts[0]) != []
    ensures r.Ok? ==> ValidValue(r.value) && !r.value.isDone && r.value.kind.Event?
    ensures r.Err? ==> r.error.reason == InvalidArgument
  {
    var desc := Trim(fromParts[0]);
    var toParts := SplitAroundMarker(fromParts[1], "/to");
    if |toParts| != 2 || Trim(toParts[0]) == [] || Trim(toParts[1]) == [] then
      Err(InputError(InvalidArgument, MissingToMessage))
    else
      var from := Trim(toParts[0]);
      var to := Trim(toParts[1]);
      match (ParseIsoDate(from), ParseIsoDate(to))
      case (Some(fromDate), Some(toDate)) =>
        if IsBefore(toDate, fromDate) then Err(InputError(InvalidArgument, EndBeforeStartMessage))
        else
          TrimIdempotent(fromParts[0]);
          DisplayedDateNotBlank(fromDate);
          DisplayedDateNotBlank(toDate);
          Ok(TaskValue(Event(FormatShort(fromDate), FormatShort(toDate)), desc, false))
      case _ => Err(InputError(InvalidArgument, InvalidDateMessage))
  }

  // ---------------------------------------------------------------------------------------------
  // What parseTask does with the shapes of input a user types

  /** A text that `trim` leaves alone and that ends where it should: not empty, and neither end
      is a character `trim` removes. */
  predicate Trimmed(s: string)
  {
    s != [] && !IsTrimmable(s[0]) && !IsTrimmable(s[|s| - 1])
  }

  /** The keyword `kw` followed by `tail` (which starts with something that is not a letter of
      the keyword's own spelling): the lowercase of the input starts with the keyword. */
  lemma KeywordPrefix(s: string, kw: string, tail: string, word: string)
    requires s == kw + tail && ToLower(kw) == word
    ensures StartsWith(ToLower(s), word)
  {
    assert ToLower(s)[..|kw|] == ToLower(kw);
  }

  /** Trimmable padding between `todo` (in any case) and a trimmed description: a to-do with
      that description, not done. The padding may be empty, so `todoread` is the to-do `read`. */
  lemma ParseTodo(kw: string, sep: string, desc: string)
    requires |kw| == 4 && ToLower(kw) == "todo"
    requires IsTrimBlank(sep) && Trimmed(desc)
    ensures ParseTask(Some(kw + sep + desc)) == Ok(TaskValue(ToDo, desc, false))
  {
    var s := kw + sep + desc;
    assert LowerChar(kw[0]) == 't';
    TrimOfTrimmed(s);
    KeywordPrefix(s, kw, sep + desc, "todo");
    assert s[4..] == sep + desc;
    TrimPadded(sep + desc, sep, desc, []);
  }

  /** `todo` with nothing but trimmable padding after it has a missing description. */
  lemma ParseTodoEmpty(kw: string, sep: string)
    requires |kw| == 4 && ToLower(kw) == "todo" && IsTrimBlank(sep)
    ensures ParseTask(Some(kw + sep)) == Err(InputError(MissingArgument, EmptyTodoMessage))
  {
    var s := kw + sep;
    assert LowerChar(kw[0]) == 't' && LowerChar(kw[3]) == 'o';
    TrimPadded(s, [], kw, sep);
    assert s == [] + kw + sep;
    KeywordPrefix(kw, kw, [], "todo");
  }

  /** Input made of a keyword, one space and a trimmed rest is its own trim, and the text after
      the keyword trims to the rest. */
  lemma AfterKeyword(s: string, kw: string, rest: string)
    requires s == kw + " " + rest && kw != [] && !IsTrimmable(kw[0]) && Trimmed(rest)
    ensures Trim(s) == s && |s| > |kw| && Trim(s[|kw|..]) == rest
  {
    TrimOfTrimmed(s);
    assert s[|kw|..] == " " + rest;
    TrimPadded(" " + rest, " ", rest, []);
  }

  /** Trimmed input starting with `deadline` in any case goes to `getDeadlineTask`. */
  lemma DeadlineDispatch(s: string)
    requires Trim(s) == s && StartsWith(ToLower(s), "deadline")
    ensures ParseTask(Some(s)) == GetDeadlineTask(s)
  {
    var lower := ToLower(s);
    assert lower[..8][0] == 'd';
    assert !StartsWith(lower, "todo") by {
      if |lower| >= 4 {
        assert lower[..4][0] == 'd';
      }
    }
    assert s != [];
  }

  /** `deadline` in any case, a space and a trimmed rest go to `getDeadlineTask`, which sees
      that rest after the keyword. */
  lemma DeadlineInput(kw: string, rest: string)
    requires |kw| == 8 && ToLower(kw) == "deadline" && Trimmed(rest)
    ensures var s := kw + " " + rest;
      ParseTask(Some(s)) == GetDeadlineTask(s) && |s| > 8 && Trim(s[8..]) == rest
  {
    var s := kw + " " + rest;
    assert LowerChar(kw[0]) == 'd';
    AfterKeyword(s, kw, rest);
    KeywordPrefix(s, kw, " " + rest, "deadline");
    DeadlineDispatch(s);
  }

  /** `event` in any case, a space and a trimmed rest go to `getEventTask`, which sees that
      rest after the keyword. */
  lemma EventInput(kw: string, rest: string)
    requires |kw| == 5 && ToLower(kw) == "event" && Trimmed(rest)
    ensures var s := kw + " " + rest;
      ParseTask(Some(s)) == GetEventTask(s) && |s| > 5 && Trim(s[5..]) == rest
  {
    var s := kw + " " + rest;
    assert LowerChar(kw[0]) == 'e';
    AfterKeyword(s, kw, rest);
    KeywordPrefix(s, kw, " " + rest, "event");
    EventDispatch(s);
  }

  /** Trimmed input starting with `event` in any case goes to `getEventTask`. */
  lemma EventDispatch(s: string)
    requires Trim(s) == s && StartsWith(ToLower(s), "event")
    ensures ParseTask(Some(s)) == GetEventTask(s)
  {
    var lower := ToLower(s);
    assert lower[..5][0] == 'e';
    assert !StartsWith(lower, "todo") by {
      if |lower| >= 4 {
        assert lower[..4][0] == 'e';
      }
    }
    assert !StartsWith(lower, "deadline") by {
      if |lower| >= 8 {
        assert lower[..8][0] == 'e';
      }
    }
    assert s != [];
  }

  /** The text after `deadline` splits around `/by` into a `/`-free description and the rest. */
  lemma GetStringsOf(s: string, desc: string, byText: string)
    requires |s| > 8 && Trim(s[8..]) == desc + " /by " + byText
    requires Trimmed(desc) && Lacks(desc, '/') && Trimmed(byText)
    ensures GetStrings(s) == Ok([desc, byText])
  {
    assert desc + " /by " + byText == desc + " " + "/by" + " " + byText;
    SplitAroundMarkerJoin(desc, "/by", byText);
    TrimOfTrimmed(desc);
    TrimOfTrimmed(byText);
  }

  /** `deadline <desc> /by <when>` with a description free of `/`: a deadline whose `by` is the
      `MMM d yyyy` rendering of an ISO date, or the date-format error. */
  lemma ParseDeadline(kw: string, desc: string, byText: string)
    requires |kw| == 8 && ToLower(kw) == "deadline"
    requires Trimmed(desc) && Lacks(desc, '/') && Trimmed(byText)
    ensures ParseTask(Some(kw + " " + desc + " /by " + byText)) ==
      match ParseIsoDate(byText)
      case None => Err(InputError(InvalidArgument, InvalidDateMessage))
      case Some(d) => Ok(TaskValue(Deadline(FormatShort(d)), desc, false))
  {
    var rest := desc + " /by " + byText;
    var s := kw + " " + rest;
    assert s == kw + " " + desc + " /by " + byText;
    DeadlineInput(kw, rest);
    GetStringsOf(s, desc, byText);
    TrimOfTrimmed(desc);
    TrimOfTrimmed(byText);
  }

  /** The ISO text of a real date after `/by` gives that deadline. */
  lemma ParseDeadlineOfIso(kw: string, desc: string, d: Date)
    requires |kw| == 8 && ToLower(kw) == "deadline"
    requires Trimmed(desc) && Lacks(desc, '/') && ValidDate(d)
    ensures ParseTask(Some(kw + " " + desc + " /by " + IsoText(d)))
            == Ok(TaskValue(Deadline(FormatShort(d)), desc, false))
  {
    ParseIsoText(d);
    ParseDeadline(kw, desc, IsoText(d));
  }

  /** A single word after `deadline` has no `/by` part. */
  lemma ParseDeadlineWithoutBy(kw: string, word: string)
    requires |kw| == 8 && ToLower(kw) == "deadline"
    requires Trimmed(word) && HasNoRegexSpace(word)
    ensures ParseTask(Some(kw + " " + word)) == Err(InputError(InvalidArgument, MissingByMessage))
  {
    DeadlineInput(kw, word);
    GetStringsNoBy(kw + " " + word, word);
  }

  lemma GetStringsNoBy(s: string, word: string)
    requires |s| > 8 && Trim(s[8..]) == word && word != [] && HasNoRegexSpace(word)
    ensures GetStrings(s) == Err(InputError(InvalidArgument, MissingByMessage))
  {
    SplitAroundMarkerNoSpace(word, "/by");
  }

  /** The text after `event` splits around the first `/from` into a `/`-free description and
      the rest. */
  lemma GetEventTaskOf(s: string, desc: string, after: string)
    requires |s| > 5 && Trim(s[5..]) == desc + " /from " + after
    requires Trimmed(desc) && Lacks(desc, '/') && after != [] && !IsRegexSpace(after[0])
    ensures GetEventTask(s) == GetEventTaskFromParts([desc, after])
  {
    assert desc + " /from " + after == desc + " " + "/from" + " " + after;
    SplitAroundMarkerJoin(desc, "/from", after);
    TrimOfTrimmed(desc);
  }

  /** The part after `/from` splits around the first `/to` into a `/`-free start and the end. */
  lemma GetEventTaskFromPartsOf(desc: string, from: string, to: string)
    requires Trimmed(desc) && Trimmed(from) && Lacks(from, '/') && Trimmed(to)
    ensures GetEventTaskFromParts([desc, from + " /to " + to]) ==
      if ParseIsoDate(from).None? || ParseIsoDate(to).None? then
        Err(InputError(InvalidArgument, InvalidDateMessage))
      else if IsBefore(ParseIsoDate(to).value, ParseIsoDate(from).value) then
        Err(InputError(InvalidArgument, EndBeforeStartMessage))
      else
        Ok(TaskValue(Event(FormatShort(ParseIsoDate(from).value), FormatShort(ParseIsoDate(to).value)),
                     desc, false))
  {
    TrimOfTrimmed(desc);
    assert from + " /to " + to == from + " " + "/to" + " " + to;
    SplitAroundMarkerJoin(from, "/to", to);
    TrimOfTrimmed(from);
    TrimOfTrimmed(to);
  }

  /** `event <desc> /from <from> /to <to>` with description and start free of `/`: both dates
      must be ISO dates, the end must not come before the start, and both are stored as
      `MMM d yyyy`. */
  lemma ParseEvent(kw: string, desc: string, from: string, to: string)
    requires |kw| == 5 && ToLower(kw) == "event"
    requires Trimmed(desc) && Lacks(desc, '/') && Trimmed(from) && Lacks(from, '/') && Trimmed(to)
    ensures ParseTask(Some(kw + " " + desc + " /from " + from + " /to " + to)) ==
      if ParseIsoDate(from).None? || ParseIsoDate(to).None? then
        Err(InputError(InvalidArgument, InvalidDateMessage))
      else if IsBefore(ParseIsoDate(to).value, ParseIsoDate(from).value) then
        Err(InputError(InvalidArgument, EndBeforeStartMessage))
      else
        Ok(TaskValue(Event(FormatShort(ParseIsoDate(from).value), FormatShort(ParseIsoDate(to).value)),
                     desc, false))
  {
    EventText(kw, desc, from, to);
    EventToParts(kw, desc, from + " /to " + to);
    GetEventTaskFromPartsOf(desc, from, to);
  }

  /** The event command text, grouped the way the parser takes it apart. */
  lemma EventText(kw: string, desc: string, from: string, to: string)
    ensures kw + " " + desc + " /from " + from + " /to " + to
            == kw + " " + (desc + " /from " + (from + " /to " + to))
  {
    var a, f, t := kw + " ", " /from ", " /to ";
    ConcatAssoc(a, desc, f);
    ConcatAssoc(a, desc + f, from);
    ConcatAssoc(desc + f, from, t);
    ConcatAssoc(a, desc + f + from, t);
    ConcatAssoc(desc + f, from + t, to);
    ConcatAssoc(desc + f + from, t, to);
    ConcatAssoc(a, desc + f + from + t, to);
  }

  /** `event <desc> /from <after>` reaches `getEventTask(String[])` with those two parts. */
  lemma EventToParts(kw: string, desc: string, after: string)
    requires |kw| == 5 && ToLower(kw) == "event"
    requires Trimmed(desc) && Lacks(desc, '/') && Trimmed(after)
    ensures ParseTask(Some(kw + " " + (desc + " /from " + after))) == GetEventTaskFromParts([desc, after])
  {
    var rest := desc + " /from " + after;
    EventInput(kw, rest);
    GetEventTaskOf(kw + " " + rest, desc, after);
  }

  /** Two real dates in ISO text: the event is accepted exactly when the end is not before the
      start, and in particular when both are the same day. */
  lemma ParseEventOfIso(kw: string, desc: string, start: Date, end: Date)
    requires |kw| == 5 && ToLower(kw) == "event"
    requires Trimmed(desc) && Lacks(desc, '/') && ValidDate(start) && ValidDate(end)
    ensures var r := ParseTask(Some(kw + " " + desc + " /from " + IsoText(start) + " /to " + IsoText(end)));
      (r.Ok? <==> DayNumber(start) <= DayNumber(end))
      && (r.Ok? ==> r.value == TaskValue(Event(FormatShort(start), FormatShort(end)), desc, false))
      && (r.Err? ==> r.error == InputError(InvalidArgument, EndBeforeStartMessage))
  {
    ParseIsoText(start);
    ParseIsoText(end);
    var iso := IsoText(start);
    assert Lacks(iso, '/') by {
      assert forall i :: 0 <= i < |iso| ==> iso[i] == '-' || IsDigit(iso[i]);
    }
    ParseEvent(kw, desc, iso, IsoText(end));
    IsBeforeIffEarlier(end, start);
  }

  /** Input that is null or blank after trimming is the only empty-input error. */
  lemma ParseTaskEmptyInput(input: Option<string>)
    ensures ParseTask(input).Err? && ParseTask(input).error.reason == EmptyInput
            <==> input.None? || IsTrimBlank(input.value)
  {
    if input.Some? {
      TrimEmptyIff(input.value);
    }
  }

  /** Input whose lower-cased trimmed text starts with none of the three keywords is an unknown
      command: "tomorrow", "delete 1" and "done" included. */
  lemma ParseTaskUnknown(s: string)
    requires Trim(s) != []
    requires var lower := ToLower(Trim(s));
      !StartsWith(lower, "todo") && !StartsWith(lower, "deadline") && !StartsWith(lower, "event")
    ensures ParseTask(Some(s)) == Err(InputError(UnknownCommand, UnknownCommandMessage))
  {
  }

  /** In particular, trimmed input whose first letter is not t, d or e, in either case. */
  lemma ParseTaskUnknownLetter(s: string)
    requires Trim(s) != []
    requires var c := LowerChar(Trim(s)[0]); c != 't' && c != 'd' && c != 'e'
    ensures ParseTask(Some(s)) == Err(InputError(UnknownCommand, UnknownCommandMessage))
  {
    var lower := ToLower(Trim(s));
    assert !StartsWith(lower, "todo") && !StartsWith(lower, "deadline") && !StartsWith(lower, "event") by {
      assert lower[0] == LowerChar(Trim(s)[0]);
    }
    ParseTaskUnknown(s);
  }
}
