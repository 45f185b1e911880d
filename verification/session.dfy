/**
  The task list and the command interpreter over it. `Step` says what one input line does
  to the list; the `Session` class keeps the list and the save file, and its methods change
  them in place the way `add`, `delete`, `markAsDone`, `save` and `load` do.
 */
module Duke {
  import opened Wrappers
  import opened JavaStrings
  import opened Tasks
  import opened Storage
  import opened Commands

  /** What one line does, in place of the messages `decide` echoes. */
  datatype Outcome =
    | Exit                              // `bye`
    | Ignored                           // a line of spaces only
    | Listed(text: string)
    | Added(task: Task, size: nat)
    | Marked(task: Task)
    | Unmarked(task: Task)
    | Deleted(task: Task, size: nat)
    | Failed(error: Error)

  /** The outcomes after which the list has changed and the file is rewritten. */
  predicate Mutates(o: Outcome) {
    o.Added? || o.Marked? || o.Unmarked? || o.Deleted?
  }

  // ---------------------------------------------------------------- listing

  const Header: string := "Here are the tasks in your list:\n"
  const Empty: string := "No items stored"

  /** One numbered line of the listing: a tab, the number, a dot, the task's display form
      and a newline. */
  function Row(n: nat, t: Task): (r: string)
    ensures |r| >= |NatToString(n)| + 10 && r[0] == '\t' && r[|r| - 1] == '\n'
    ensures r[1..1 + |NatToString(n)|] == NatToString(n) && r[1 + |NatToString(n)|] == '.'
  {
    var num := NatToString(n);
    var r := "\t" + num + "." + Render(t) + "\n";
    assert r[1..1 + |num|] == num;
    r
  }

  /** The rows of `items`, the first one numbered `first`. */
  function RowList(items: seq<Task>, first: nat): seq<string> {
    seq(|items|, k requires 0 <= k < |items| => Row(first + k, items[k]))
  }

  /** Strings one after the other. */
  function Concat(parts: seq<string>): (r: string)
    ensures parts != [] && parts[|parts| - 1] != "" ==> r != ""
    decreases |parts|
  {
    if parts == [] then "" else Concat(parts[..|parts| - 1]) + parts[|parts| - 1]
  }

  lemma {:induction false} ConcatAppend(a: seq<string>, b: seq<string>)
    ensures Concat(a + b) == Concat(a) + Concat(b)
    decreases |b|
  {
    if b == [] {
      assert a + b == a;
    } else {
      var init := b[..|b| - 1];
      assert (a + b)[..|a + b| - 1] == a + init;
      ConcatAppend(a, init);
    }
  }

  /** The text of the rows of `items`: empty exactly when there are no tasks. */
  function Rows(items: seq<Task>, first: nat): (r: string)
    ensures r == "" <==> items == []
  {
    var rows := RowList(items, first);
    assert items != [] ==> rows[|rows| - 1] == Row(first + |items| - 1, items[|items| - 1]);
    Concat(rows)
  }

  /** Rows of two lists one after the other: the second list's numbering continues. */
  lemma RowsConcat(a: seq<Task>, b: seq<Task>, first: nat)
    ensures Rows(a + b, first) == Rows(a, first) + Rows(b, first + |a|)
  {
    assert RowList(a + b, first) == RowList(a, first) + RowList(b, first + |a|);
    ConcatAppend(RowList(a, first), RowList(b, first + |a|));
  }

  /** One more task adds one row, numbered after the others. */
  lemma RowsSnoc(items: seq<Task>, i: nat)
    requires i < |items|
    ensures Rows(items[..i + 1], 1) == Rows(items[..i], 1) + Row(i + 1, items[i])
  {
    var done := RowList(items[..i], 1);
    assert RowList(items[..i + 1], 1) == done + [Row(i + 1, items[i])];
    assert (done + [Row(i + 1, items[i])])[..|done|] == done;
  }

  lemma RowListSplit(items: seq<Task>, k: nat)
    requires k < |items|
    ensures RowList(items, 1) == RowList(items[..k], 1) + [Row(k + 1, items[k])] + RowList(items[k + 1..], k + 2)
  {
    var pre, mid, post := RowList(items[..k], 1), [Row(k + 1, items[k])], RowList(items[k + 1..], k + 2);
    assert forall j :: 0 <= j < |items| ==> RowList(items, 1)[j] == (pre + mid + post)[j];
  }

  /** Task `k` of the list is shown on its own row, numbered `k + 1`, between the rows of
      the tasks before it and those after it. */
  lemma ListingRow(items: seq<Task>, k: nat)
    requires k < |items|
    ensures Rows(items, 1) == Rows(items[..k], 1) + Row(k + 1, items[k]) + Rows(items[k + 1..], k + 2)
  {
    var pre, mid, post := RowList(items[..k], 1), [Row(k + 1, items[k])], RowList(items[k + 1..], k + 2);
    RowListSplit(items, k);
    ConcatAppend(pre + mid, post);
    ConcatAppend(pre, mid);
    assert Concat(mid) == Concat([]) + Row(k + 1, items[k]);
  }

  /** What `list` shows: a fixed message for an empty list, otherwise the header and the
      rows with the surrounding white space trimmed. */
  function Listing(items: seq<Task>): (text: string)
    ensures text == Empty <==> items == []
  {
    if items == [] then Empty
    else
      var s := Header + Rows(items, 1);
      assert s[0] == 'H';
      TrimKeepsFirst(s);
      Trim(s)
  }

  // ---------------------------------------------------------------- one line

  datatype Transition = Transition(outcome: Outcome, items: seq<Task>)

  /** Task number `n` (1-based) exists in a list of `size` tasks. Java computes `n - 1` in
      32 bits, which wraps only for `n == MinInt32`, to `MaxInt32`; an `ArrayList` never holds
      more than `MaxInt32` tasks, so Java refuses that `n` as this test does. The model's list
      is unbounded and the test is stated on the unwrapped number. */
  predicate InRange(n: int, size: nat) {
    1 <= n <= size
  }

  /** What `decide` (and the `bye` check in `main`) does with a command read from a line. */
  function Apply(items: seq<Task>, c: Command): (r: Transition)
    ensures !Mutates(r.outcome) ==> r.items == items
    ensures r.outcome.Listed? ==> r.outcome.text == Listing(items)
    ensures r.outcome.Added? ==>
      r.items == items + [r.outcome.task] && !r.outcome.task.done && r.outcome.size == |r.items|
    ensures r.outcome.Marked? || r.outcome.Unmarked? ==>
      |r.items| == |items| && (r.outcome.task.done <==> r.outcome.Marked?)
    ensures r.outcome.Deleted? ==> |r.items| == |items| - 1 && r.outcome.size == |r.items|
    ensures AllWellFormed(items) ==> AllWellFormed(r.items)
  {
    match c
    case Bye => Transition(Exit, items)
    case Blank => Transition(Ignored, items)
    case ListAll => Transition(Listed(Listing(items)), items)
    case Reject(e) => Transition(Failed(e), items)
    case AddTask(kind, d, remark) =>
      var t := NewTask(kind, d, remark);
      Transition(Added(t, |items| + 1), items + [t])
    case ByIndex(cmd, n) => ApplyIndex(items, cmd, n)
  }

  /** `mark`, `unmark` and `delete` with task number `n`. */
  function ApplyIndex(items: seq<Task>, cmd: IndexCommand, n: int): Transition {
    if !InRange(n, |items|) then Transition(Failed(OutOfRange), items)
    else
      var i := n - 1;
      match cmd
      case MarkCmd =>
        var t := items[i].(done := true);
        Transition(Marked(t), items[i := t])
      case UnmarkCmd =>
        var t := items[i].(done := false);
        Transition(Unmarked(t), items[i := t])
      case DeleteCmd =>
        Transition(Deleted(items[i], |items| - 1), items[..i] + items[i + 1..])
  }

  /** What one input line does. */
  function Step(items: seq<Task>, line: string): Transition {
    Apply(items, Parse(line))
  }

  /** The line `<word> <k+1>` for task index `k`. */
  function IndexLine(cmd: IndexCommand, k: nat): string {
    Word(cmd) + " " + NatToString(k + 1)
  }

  lemma ParseIndexLineOf(cmd: IndexCommand, k: nat)
    requires k + 1 <= MaxInt32
    ensures Parse(IndexLine(cmd, k)) == ByIndex(cmd, k + 1)
  {
    var arg := NatToString(k + 1);
    assert NoSpace(arg) by {
      forall j | 0 <= j < |arg| ensures arg[j] != ' ' { assert IsDigit(arg[j]); }
    }
    ParseIndexLine(cmd, arg);
    ParseIntOfNatToString(k + 1);
  }

  /** `mark k+1` sets the done flag of task `k` and of nothing else. */
  lemma MarkTask(items: seq<Task>, k: nat)
    requires k < |items| && k + 1 <= MaxInt32
    ensures var r := Step(items, IndexLine(MarkCmd, k));
      && |r.items| == |items|
      && r.outcome == Marked(r.items[k])
      && r.items[k] == items[k].(done := true)
      && forall j :: 0 <= j < |items| && j != k ==> r.items[j] == items[j]
  {
    ParseIndexLineOf(MarkCmd, k);
    var t := items[k].(done := true);
    assert Step(items, IndexLine(MarkCmd, k)) == Transition(Marked(t), items[k := t]);
  }

  /** `unmark k+1` clears the done flag of task `k` and of nothing else. */
  lemma UnmarkTask(items: seq<Task>, k: nat)
    requires k < |items| && k + 1 <= MaxInt32
    ensures var r := Step(items, IndexLine(UnmarkCmd, k));
      && |r.items| == |items|
      && r.outcome == Unmarked(r.items[k])
      && r.items[k] == items[k].(done := false)
      && forall j :: 0 <= j < |items| && j != k ==> r.items[j] == items[j]
  {
    ParseIndexLineOf(UnmarkCmd, k);
    var t := items[k].(done := false);
    assert Step(items, IndexLine(UnmarkCmd, k)) == Transition(Unmarked(t), items[k := t]);
  }

  /** Marking (or unmarking) the same task twice leaves the list as marking it once. */
  lemma MarkIdempotent(items: seq<Task>, line: string)
    requires Parse(line).ByIndex? && Parse(line).cmd != DeleteCmd
    ensures var once := Step(items, line).items; Step(once, line).items == once
  {
  }

  /** `delete k+1` removes exactly task `k`; the tasks after it move up by one. */
  lemma DeleteTask(items: seq<Task>, k: nat)
    requires k < |items| && k + 1 <= MaxInt32
    ensures var r := Step(items, IndexLine(DeleteCmd, k));
      && r.outcome == Deleted(items[k], |items| - 1)
      && r.items == items[..k] + items[k + 1..]
      && |r.items| == |items| - 1
  {
    ParseIndexLineOf(DeleteCmd, k);
    assert Step(items, IndexLine(DeleteCmd, k)) == Transition(Deleted(items[k], |items| - 1), items[..k] + items[k + 1..]);
  }

  /** `mark`, `unmark` or `delete` without an argument is an error and changes nothing. */
  lemma IndexMissingArgument(items: seq<Task>, cmd: IndexCommand, pad: string)
    requires OnlySpaces(pad)
    ensures Step(items, Word(cmd) + pad) == Transition(Failed(MissingArgument(cmd)), items)
  {
    ParseIndexAlone(cmd, pad);
  }

  /** An argument that is not an integer is an error and changes nothing. */
  lemma IndexNotInteger(items: seq<Task>, cmd: IndexCommand, arg: string)
    requires arg != "" && NoSpace(arg) && ParseInt(arg).None?
    ensures Step(items, Word(cmd) + " " + arg) == Transition(Failed(NotAnInteger(cmd)), items)
  {
    ParseIndexLine(cmd, arg);
  }

  /** A number that is not a task number is an error and changes nothing. */
  lemma IndexOutOfRange(items: seq<Task>, cmd: IndexCommand, arg: string)
    requires arg != "" && NoSpace(arg) && ParseInt(arg).Some?
    requires !(1 <= ParseInt(arg).value <= |items|)
    ensures Step(items, Word(cmd) + " " + arg) == Transition(Failed(OutOfRange), items)
  {
    ParseIndexLine(cmd, arg);
  }

  /** `todo d` appends one to-do described `d`, not done, after the existing tasks. */
  lemma AddTodo(items: seq<Task>, d: string)
    requires d != "" && IsTrimmed(d)
    ensures var r := Step(items, Keyword(Todo) + " " + d);
      && r.outcome == Added(Task(Todo, d, "", false), |items| + 1)
      && |r.items| == |items| + 1
      && r.items[..|items|] == items
      && r.items[|items|] == Task(Todo, d, "", false)
  {
    ParseTodoLine(d);
    var r := Step(items, Keyword(Todo) + " " + d);
    assert r.items == items + [Task(Todo, d, "", false)];
    assert r.items[..|items|] == items;
  }

  /** `todo` with nothing after it is an error and changes nothing. */
  lemma TodoWithoutDescription(items: seq<Task>, pad: string)
    requires OnlySpaces(pad)
    ensures Step(items, "todo" + pad) == Transition(Failed(EmptyTodo), items)
  {
    ParseTodoAlone(pad);
  }

  /** `deadline d /by r` and `event d /at r` append one task with that description and
      remark, not done, after the existing tasks. */
  lemma AddRemarked(items: seq<Task>, kind: Kind, d: string, r: string)
    requires kind != Todo
    requires d != "" && IsTrimmed(d) && !Contains(d, Separator(kind))
    requires r != "" && IsTrimmed(r) && !Contains(r, Separator(kind))
    ensures var s := Step(items, Keyword(kind) + " " + d + " " + Separator(kind) + " " + r);
      && s.outcome == Added(Task(kind, d, r, false), |items| + 1)
      && |s.items| == |items| + 1
      && s.items[..|items|] == items
      && s.items[|items|] == Task(kind, d, r, false)
  {
    ParseRemarkedLine(kind, d, r);
    var s := Step(items, Keyword(kind) + " " + d + " " + Separator(kind) + " " + r);
    assert s.items == items + [Task(kind, d, r, false)];
    assert s.items[..|items|] == items;
  }

  /** `deadline d` or `event d` without the separator is an error and changes nothing. */
  lemma RemarkedWithoutSeparator(items: seq<Task>, kind: Kind, d: string)
    requires kind != Todo && IsTrimmed(d) && !Contains(d, Separator(kind))
    ensures Step(items, Keyword(kind) + " " + d) == Transition(Failed(MissingSeparator(kind)), items)
  {
    ParseRemarkedNoSeparator(kind, d);
  }

  /** `deadline d /by` or `event d /at` with nothing after the separator is an error and
      changes nothing. */
  lemma RemarkedWithoutRemark(items: seq<Task>, kind: Kind, d: string)
    requires kind != Todo && d != "" && IsTrimmed(d) && !Contains(d, Separator(kind))
    ensures Step(items, Keyword(kind) + " " + d + " " + Separator(kind))
      == Transition(Failed(MissingSeparator(kind)), items)
  {
    ParseRemarkedNoRemark(kind, d);
  }

  /** A line starting with any other word is an error and changes nothing. */
  lemma UnknownCommand(items: seq<Task>, word: string, rest: string)
    requires word != "" && NoSpace(word) && !IsCommandWord(word)
    ensures Step(items, word + " " + rest) == Transition(Failed(Unrecognized), items)
  {
    ParseUnknown(word, rest);
  }

  /** `todo` followed by a tab adds a to-do with an empty description, the task whose
      record `load` cannot read back as written. */
  lemma AddBlankTodo(items: seq<Task>, pad: string)
    requires pad != "" && NoSpace(pad) && AllSpace(pad)
    ensures Step(items, Keyword(Todo) + " " + pad).items == items + [Task(Todo, "", "", false)]
  {
    ParseTodoBlank(pad);
  }

  /** `event chat: team /at 5pm` adds the event whose remark `save` misreads as written. */
  lemma AddChatEvent(items: seq<Task>, d: string, r: string)
    requires d == "chat: team" && r == "5pm"
    ensures Step(items, Keyword(Event) + " " + d + " " + Separator(Event) + " " + r).items
      == items + [Task(Event, d, r, false)]
    ensures RemarkFromRender(Task(Event, d, r, false)) != r
  {
    ParseChatEvent(d, r);
    RemarkFromRenderMisreads(Task(Event, d, r, false));
  }

  // ---------------------------------------------------------------- the session

  /** The running program: the task list and the contents of the save file (`None` while
      the file does not exist). */
  class Session {
    var items: seq<Task>
    var file: Option<string>

    /** Every task is well formed and came from one input line, so that its record is a
        single line of the file. */
    ghost predicate Valid()
      reads this
    {
      AllWellFormed(items) && AllOneLine(items)
    }

    /** The program starts with an empty list, whatever is on disk. */
    constructor(stored: Option<string>)
      ensures Valid()
      ensures items == [] && file == stored
    {
      items := [];
      file := stored;
    }

    /** Overwrites the file with one record per task, in list order: the file then holds
        as many lines as there are tasks. */
    method Save()
      requires Valid()
      modifies this
      ensures items == old(items)
      ensures file == Some(EncodeAll(items)) && |ScannerLines(file.value)| == |items|
    {
      var data := Write(items);
      EncodeAllLineCount(items);
      file := Some(data);
    }

    /** Appends the tasks read from the file, line by line, stopping at a line that throws.
        A missing file leaves the list as it is. `load` catches nothing but a missing file,
        so after `Crashed` the exception leaves `main` and no command is ever read. */
    method Load() returns (r: LoadResult)
      requires Valid()
      modifies this
      ensures Valid()
      ensures file == old(file)
      ensures old(file).None? ==> r == Loaded([]) && items == old(items)
      ensures old(file).Some? ==> r == DecodeAll(ScannerLines(old(file).value))
      ensures items == old(items) + r.tasks
    {
      if file.None? {
        return Loaded([]);
      }
      r := LoadLines(ScannerLines(file.value));
    }

    /** The `load` loop over the lines of the file, which hold no line break. */
    method LoadLines(lines: seq<string>) returns (r: LoadResult)
      requires Valid()
      requires forall k :: 0 <= k < |lines| ==> NoLineBreak(lines[k])
      modifies this
      ensures Valid()
      ensures file == old(file)
      ensures r == DecodeAll(lines)
      ensures items == old(items) + r.tasks
    {
      r := Loaded([]);
      var i := 0;
      while i < |lines|
        invariant 0 <= i <= |lines|
        invariant r == DecodeAll(lines[..i]) && r.Loaded?
        invariant file == old(file)
        invariant items == old(items) + r.tasks
        invariant Valid()
      {
        var decoded := DecodeLine(lines[i]);
        if decoded.Malformed? {
          DecodeNextMalformed(lines, i);
          return Crashed(r.tasks);
        } else if decoded.Skipped? {
          DecodeNextSkipped(lines, i);
        } else {
          DecodeNextRecord(lines, i);
          AllWellFormedSnoc(items, decoded.task);
          DecodeLineOneLine(lines[i]);
          AllOneLineSnoc(items, decoded.task);
          assert old(items) + r.tasks + [decoded.task] == old(items) + (r.tasks + [decoded.task]);
          items := items + [decoded.task];
          r := Loaded(r.tasks + [decoded.task]);
        }
        i := i + 1;
      }
      assert lines[..i] == lines;
    }

    /** Appends a new task and saves. The description and the remark are pieces of one
        input line. */
    method Add(kind: Kind, description: string, remark: string) returns (t: Task)
      requires Valid() && NoLineBreak(description) && NoLineBreak(remark)
      modifies this
      ensures Valid()
      ensures t == NewTask(kind, description, remark)
      ensures items == old(items) + [t]
      ensures file == Some(EncodeAll(items))
    {
      t := NewTask(kind, description, remark);
      AllWellFormedSnoc(items, t);
      AllOneLineSnoc(items, t);
      items := items + [t];
      Save();
    }

    /** Sets the done flag of task `i` and saves. */
    method MarkDone(i: nat)
      requires Valid() && i < |items|
      modifies this
      ensures Valid()
      ensures items == old(items)[i := old(items)[i].(done := true)]
      ensures file == Some(EncodeAll(items))
    {
      items := items[i := items[i].(done := true)];
      Save();
    }

    /** Clears the done flag of task `i` and saves. */
    method MarkUndone(i: nat)
      requires Valid() && i < |items|
      modifies this
      ensures Valid()
      ensures items == old(items)[i := old(items)[i].(done := false)]
      ensures file == Some(EncodeAll(items))
    {
      items := items[i := items[i].(done := false)];
      Save();
    }

    /** Removes task `i` and saves. */
    method Delete(i: nat)
      requires Valid() && i < |items|
      modifies this
      ensures Valid()
      ensures items == old(items)[..i] + old(items)[i + 1..]
      ensures file == Some(EncodeAll(items))
    {
      items := items[..i] + items[i + 1..];
      Save();
    }

    /** Builds the listing row by row. */
    method List() returns (text: string)
      ensures text == Listing(items)
    {
      if |items| == 0 {
        return Empty;
      }
      var rows := "";
      var i := 0;
      while i < |items|
        invariant 0 <= i <= |items|
        invariant rows == Rows(items[..i], 1)
      {
        RowsSnoc(items, i);
        rows := rows + Row(i + 1, items[i]);
        i := i + 1;
      }
      assert items[..i] == items;
      text := Trim(Header + rows);
    }

    /** Handles one line, read by `nextLine` and so free of line breaks: the outcome and
        the new list are those of `Step`. The file is rewritten, one line per task, after every
        add, mark, unmark and delete, even one that leaves the list as it was (marking a task
        that is already done), and is left alone otherwise. */
    method Decide(line: string) returns (out: Outcome)
      requires Valid() && NoLineBreak(line)
      modifies this
      ensures Valid()
      ensures Transition(out, items) == Step(old(items), line)
      ensures Mutates(out) ==> file == Some(EncodeAll(items)) && |ScannerLines(file.value)| == |items|
      ensures !Mutates(out) ==> file == old(file)
    {
      ParseOneLine(line);
      out := Execute(Parse(line));
      EncodeAllLineCount(items);
    }

    /** Carries out a command read from one line. */
    method Execute(c: Command) returns (out: Outcome)
      requires Valid() && (c.AddTask? ==> NoLineBreak(c.description) && NoLineBreak(c.remark))
      modifies this
      ensures Valid()
      ensures Transition(out, items) == Apply(old(items), c)
      ensures Mutates(out) ==> file == Some(EncodeAll(items))
      ensures !Mutates(out) ==> file == old(file)
    {
      match c
      case Bye =>
        out := Exit;
      case Blank =>
        out := Ignored;
      case ListAll =>
        var text := List();
        out := Listed(text);
      case Reject(e) =>
        out := Failed(e);
      case AddTask(kind, d, remark) =>
        var t := Add(kind, d, remark);
        out := Added(t, |items|);
      case ByIndex(cmd, n) =>
        out := ExecuteIndex(cmd, n);
    }

    /** `mark`, `unmark` and `delete`: a number outside the list is refused, otherwise the
        task is changed or removed and the file rewritten. */
    method ExecuteIndex(cmd: IndexCommand, n: int) returns (out: Outcome)
      requires Valid()
      modifies this
      ensures Valid()
      ensures Transition(out, items) == ApplyIndex(old(items), cmd, n)
      ensures !out.Failed? ==> file == Some(EncodeAll(items))
      ensures out.Failed? ==> file == old(file)
    {
      if !InRange(n, |items|) {
        out := Failed(OutOfRange);
      } else {
        var i := n - 1;
        match cmd
        case MarkCmd =>
          MarkDone(i);
          out := Marked(items[i]);
        case UnmarkCmd =>
          MarkUndone(i);
          out := Unmarked(items[i]);
        case DeleteCmd =>
          var t := items[i];
          Delete(i);
          out := Deleted(t, |items|);
      }
    }
  }
}
