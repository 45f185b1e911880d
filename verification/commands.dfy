/**
  Reading one input line into a command, as the dispatch in `decide` does: the line is split
  on single spaces, the first word selects the command, index commands parse their second
  word as an integer, and `todo`, `deadline`, `event` take their text from the raw line.
 */
module Commands {
  import opened Wrappers
  import opened JavaStrings
  import opened Tasks

  /** The commands that take a 1-based task number. */
  datatype IndexCommand = MarkCmd | UnmarkCmd | DeleteCmd

  datatype Error =
    | MissingArgument(cmd: IndexCommand)  // no word after mark, unmark or delete
    | NotAnInteger(cmd: IndexCommand)     // parseInt failed on that word
    | OutOfRange                          // the number is not between 1 and the list size
    | EmptyTodo                           // todo with nothing after it
    | MissingSeparator(kind: Kind)        // fewer than two pieces around /by or /at
    | Unrecognized                        // any other first word

  datatype Command =
    | Bye
    | Blank                               // a line of spaces only: nothing happens
    | ListAll
    | ByIndex(cmd: IndexCommand, n: int)
    | AddTask(kind: Kind, description: string, remark: string)
    | Reject(error: Error)

  function Word(cmd: IndexCommand): string {
    match cmd
    case MarkCmd => "mark"
    case UnmarkCmd => "unmark"
    case DeleteCmd => "delete"
  }

  function Keyword(kind: Kind): string {
    match kind
    case Todo => "todo"
    case Deadline => "deadline"
    case Event => "event"
  }

  function Separator(kind: Kind): string
    requires kind != Todo
  {
    if kind == Deadline then "/by" else "/at"
  }

  predicate NoSpace(s: string) {
    forall k :: 0 <= k < |s| ==> s[k] != ' '
  }

  predicate OnlySpaces(s: string) {
    forall k :: 0 <= k < |s| ==> s[k] == ' '
  }

  /** `mark`, `unmark` and `delete`: the second word as a 32-bit integer, or the error
      for a missing or non-numeric word. */
  function ParseIndex(cmd: IndexCommand, words: seq<string>): (c: Command)
    ensures c.ByIndex? || c.Reject?
    ensures c.ByIndex? <==> |words| > 1 && ParseInt(words[1]).Some?
    ensures c.ByIndex? ==> c.cmd == cmd && ParseInt(words[1]) == Some(c.n)
    ensures c.Reject? ==> c.error == (if |words| <= 1 then MissingArgument(cmd) else NotAnInteger(cmd))
  {
    if |words| <= 1 then Reject(MissingArgument(cmd))
    else
      match ParseInt(words[1])
      case None => Reject(NotAnInteger(cmd))
      case Some(n) => ByIndex(cmd, n)
  }

  /** `deadline` and `event`: the text after the keyword, trimmed, split on the separator;
      the first two pieces, trimmed, are the description and the remark. */
  function ParseRemarked(kind: Kind, rest: string): (c: Command)
    requires kind != Todo
    ensures c.AddTask? || c == Reject(MissingSeparator(kind))
    ensures c.AddTask? ==> c.kind == kind && IsTrimmed(c.description) && IsTrimmed(c.remark)
    ensures c.AddTask? ==> Contains(Trim(rest), Separator(kind))
  {
    var parts := Split(Trim(rest), Separator(kind));
    if |parts| <= 1 then Reject(MissingSeparator(kind))
    else AddTask(kind, Trim(parts[0]), Trim(parts[1]))
  }

  /** One input line as a command. Descriptions and remarks come out trimmed, and task
      numbers within the 32-bit range. */
  function Parse(line: string): (c: Command)
    ensures c.AddTask? ==> IsTrimmed(c.description) && IsTrimmed(c.remark)
    ensures c.ByIndex? ==> MinInt32 <= c.n <= MaxInt32
  {
    if line == "bye" then Bye
    else
      var words := Split(line, " ");
      if |words| == 0 then Blank
      else if line == "list" then ListAll
      else if words[0] == "mark" then ParseIndex(MarkCmd, words)
      else if words[0] == "unmark" then ParseIndex(UnmarkCmd, words)
      else if words[0] == "delete" then ParseIndex(DeleteCmd, words)
      else if words[0] == "todo" then
        if |words| == 1 then Reject(EmptyTodo) else AddTask(Todo, Trim(line[4..]), "")
      else if words[0] == "deadline" then ParseRemarked(Deadline, line[8..])
      else if words[0] == "event" then ParseRemarked(Event, line[5..])
      else Reject(Unrecognized)
  }

  // ---------------------------------------------------------------- splitting into words

  lemma NoSpaceNotContains(s: string)
    requires NoSpace(s)
    ensures !Contains(s, " ")
  {
    forall k | 0 <= k <= |s| && k + 1 <= |s| ensures !OccursAt(s, " ", k) {
      assert s[k..k + 1][0] == s[k];
    }
  }

  /** Splitting spaces on spaces gives only empty pieces. */
  lemma {:induction false} SplitAllSpaces(pad: string)
    requires OnlySpaces(pad)
    ensures forall k :: 0 <= k < |SplitAll(pad, " ")| ==> SplitAll(pad, " ")[k] == ""
    decreases |pad|
  {
    if pad == "" {
      NoSpaceNotContains(pad);
      SplitAllNone(pad, " ");
    } else {
      assert pad == "" + " " + pad[1..];
      SplitAllCons("", " ", pad[1..]);
      SplitAllSpaces(pad[1..]);
    }
  }

  /** The first piece of a split survives when it is not empty. */
  lemma FirstPieceKept(pieces: seq<string>)
    requires |pieces| > 0 && pieces[0] != ""
    ensures |DropTrailingEmpty(pieces)| > 0 && DropTrailingEmpty(pieces)[0] == pieces[0]
  {
  }

  /** A word followed by spaces only splits into that word alone. */
  lemma SplitWordThenSpaces(word: string, pad: string)
    requires word != "" && NoSpace(word) && OnlySpaces(pad)
    ensures Split(word + pad, " ") == [word]
  {
    NoSpaceNotContains(word);
    if pad == "" {
      assert word + pad == word;
    } else {
      assert word + pad == word + " " + pad[1..];
      SeparableWithoutFirstChar(word, " ");
      SplitAllCons(word, " ", pad[1..]);
      SplitAllSpaces(pad[1..]);
      assert OccursAt(word + pad, " ", |word|) by { assert (word + pad)[|word|..|word| + 1] == " "; }
      var pieces := SplitAll(word + pad, " ");
      var r := DropTrailingEmpty(pieces);
      FirstPieceKept(pieces);
      assert r[..1] == [word];
    }
  }

  /** A word, one space and the rest: the first piece is the word. */
  lemma SplitWordThenRest(word: string, rest: string)
    requires word != "" && NoSpace(word)
    ensures var words := Split(word + " " + rest, " ");
      |words| > 0 && words[0] == word
      && Split(word + " " + rest, " ") == DropTrailingEmpty([word] + SplitAll(rest, " "))
  {
    SeparableWithoutFirstChar(word, " ");
    SplitAllCons(word, " ", rest);
    assert OccursAt(word + " " + rest, " ", |word|) by { assert (word + " " + rest)[|word|..|word| + 1] == " "; }
    FirstPieceKept([word] + SplitAll(rest, " "));
  }

  /** A word, one space and a second word without spaces: exactly those two words. */
  lemma SplitTwoWords(word: string, arg: string)
    requires word != "" && NoSpace(word) && arg != "" && NoSpace(arg)
    ensures Split(word + " " + arg, " ") == [word, arg]
  {
    SplitWordThenRest(word, arg);
    NoSpaceNotContains(arg);
    SplitAllNone(arg, " ");
    NothingDropped([word, arg]);
  }

  // ---------------------------------------------------------------- parsing properties

  /** `mark`, `unmark` or `delete` and one word: the word is parsed as a number. */
  lemma ParseIndexLine(cmd: IndexCommand, arg: string)
    requires arg != "" && NoSpace(arg)
    ensures Parse(Word(cmd) + " " + arg) ==
      match ParseInt(arg)
      case None => Reject(NotAnInteger(cmd))
      case Some(n) => ByIndex(cmd, n)
  {
    var line := Word(cmd) + " " + arg;
    SplitTwoWords(Word(cmd), arg);
    var words := Split(line, " ");
    assert |line| > 4;
    assert line != "bye" && line != "list";
    assert Parse(line) == ParseIndex(cmd, words) by {
      match cmd
      case MarkCmd =>
        assert words[0] == "mark";
      case UnmarkCmd =>
        assert words[0] == "unmark" && words[0] != "mark";
      case DeleteCmd =>
        assert words[0] == "delete" && words[0] != "mark" && words[0] != "unmark";
    }
    assert words[1] == arg;
  }

  /** `mark`, `unmark` or `delete` followed by nothing but spaces lacks its argument. */
  lemma ParseIndexAlone(cmd: IndexCommand, pad: string)
    requires OnlySpaces(pad)
    ensures Parse(Word(cmd) + pad) == Reject(MissingArgument(cmd))
  {
    var line := Word(cmd) + pad;
    SplitWordThenSpaces(Word(cmd), pad);
    assert line[0] == Word(cmd)[0];
  }

  /** The keyword is the first word of a keyword line. */
  lemma KeywordFirst(kind: Kind, rest: string)
    ensures var words := Split(Keyword(kind) + " " + rest, " ");
      |words| > 0 && words[0] == Keyword(kind)
  {
    SplitWordThenRest(Keyword(kind), rest);
  }

  lemma ParseTodoKeyword(rest: string)
    ensures var line := Keyword(Todo) + " " + rest;
      Parse(line) ==
        if |Split(line, " ")| == 1 then Reject(EmptyTodo) else AddTask(Todo, Trim(" " + rest), "")
  {
    KeywordFirst(Todo, rest);
    var line := Keyword(Todo) + " " + rest;
    var words := Split(line, " ");
    assert words[0] == "todo";
    assert line != "bye" && line != "list";
    assert words[0] != "mark" && words[0] != "unmark" && words[0] != "delete";
    assert line[4..] == " " + rest;
  }

  lemma ParseDeadlineKeyword(rest: string)
    ensures var line := Keyword(Deadline) + " " + rest;
      Parse(line) == ParseRemarked(Deadline, line[8..]) && line[8..] == " " + rest
  {
    KeywordFirst(Deadline, rest);
    var line := Keyword(Deadline) + " " + rest;
    var words := Split(line, " ");
    assert line[0] == 'd';
    assert words[0] == "deadline";
    assert line != "bye" && line != "list";
    assert words[0] != "mark" && words[0] != "unmark" && words[0] != "delete" && words[0] != "todo";
    assert line[8..] == " " + rest;
  }

  lemma ParseEventKeyword(rest: string)
    ensures var line := Keyword(Event) + " " + rest;
      Parse(line) == ParseRemarked(Event, line[5..]) && line[5..] == " " + rest
  {
    KeywordFirst(Event, rest);
    var line := Keyword(Event) + " " + rest;
    var words := Split(line, " ");
    assert line[0] == 'e';
    assert words[0] == "event";
    assert line != "bye" && line != "list";
    assert words[0] != "mark" && words[0] != "unmark" && words[0] != "delete" && words[0] != "todo";
    assert words[0] != "deadline";
    assert line[5..] == " " + rest;
  }

  /** A line made of a keyword, one space and the rest is dispatched on that keyword. */
  lemma ParseKeywordLine(kind: Kind, rest: string)
    ensures var line := Keyword(kind) + " " + rest;
      Parse(line) ==
        if kind == Todo then
          if |Split(line, " ")| == 1 then Reject(EmptyTodo) else AddTask(Todo, Trim(" " + rest), "")
        else ParseRemarked(kind, " " + rest)
  {
    match kind
    case Todo => ParseTodoKeyword(rest);
    case Deadline => ParseDeadlineKeyword(rest);
    case Event => ParseEventKeyword(rest);
  }

  lemma TrimAfterSpace(x: string)
    requires IsTrimmed(x)
    ensures Trim(" " + x) == x
  {
    TrimPadded(" ", x, "");
    assert " " + x + "" == " " + x;
  }

  lemma TrimBeforeSpace(x: string)
    requires IsTrimmed(x)
    ensures Trim(x + " ") == x
  {
    TrimPadded("", x, " ");
    assert "" + x + " " == x + " ";
  }

  /** The last piece of a trimmed non-empty text split on spaces is not empty. */
  lemma LastWordNotEmpty(d: string)
    requires d != "" && IsTrimmed(d)
    ensures var rest := SplitAll(d, " "); rest[|rest| - 1] != ""
  {
    SplitAllLastPiece(d, " ");
    assert d[|d| - 1..][0] == d[|d| - 1];
  }

  /** A word, one space and a trimmed non-empty text split into at least two words. */
  lemma SplitWordThenText(word: string, d: string)
    requires word != "" && NoSpace(word) && d != "" && IsTrimmed(d)
    ensures |Split(word + " " + d, " ")| >= 2
  {
    var rest := SplitAll(d, " ");
    LastWordNotEmpty(d);
    var pieces := [word] + rest;
    assert |pieces| >= 2 && pieces[|pieces| - 1] == rest[|rest| - 1];
    NothingDropped(pieces);
    SplitWordThenRest(word, d);
  }

  /** `todo` and a description: a to-do with that description. */
  lemma ParseTodoLine(d: string)
    requires d != "" && IsTrimmed(d)
    ensures Parse(Keyword(Todo) + " " + d) == AddTask(Todo, d, "")
  {
    var line := Keyword(Todo) + " " + d;
    SplitWordThenText(Keyword(Todo), d);
    TrimAfterSpace(d);
    assert |Split(line, " ")| != 1 && Trim(" " + d) == d;
    ParseTodoKeyword(d);
  }

  /** `todo` followed by nothing but spaces is refused. */
  lemma ParseTodoAlone(pad: string)
    requires OnlySpaces(pad)
    ensures Parse("todo" + pad) == Reject(EmptyTodo)
  {
    SplitWordThenSpaces("todo", pad);
    assert ("todo" + pad)[0] == 't';
  }

  lemma NotContainsAfterSpace(r: string, sep: string)
    requires sep != "" && sep[0] != ' ' && !Contains(r, sep)
    ensures !Contains(" " + r, sep)
  {
    var s := " " + r;
    forall k | 0 <= k <= |s| && k + |sep| <= |s| ensures !OccursAt(s, sep, k) {
      if k == 0 {
        assert s[k..k + |sep|][0] == ' ';
      } else {
        assert s[k..k + |sep|] == r[k - 1..k - 1 + |sep|];
        assert !OccursAt(r, sep, k - 1);
      }
    }
  }

  /** `d /by r` splits on `/by` into `d ` and ` r`. */
  lemma SplitAtSeparator(kind: Kind, d: string, r: string)
    requires kind != Todo
    requires !Contains(d, Separator(kind)) && r != "" && !Contains(r, Separator(kind))
    ensures Split(d + " " + Separator(kind) + " " + r, Separator(kind)) == [d + " ", " " + r]
  {
    var sep := Separator(kind);
    var body := d + " " + sep + " " + r;
    assert body == (d + " ") + sep + (" " + r);
    SeparableBeforeSpace(d, sep);
    SplitAllCons(d + " ", sep, " " + r);
    NotContainsAfterSpace(r, sep);
    SplitAllNone(" " + r, sep);
    assert OccursAt(body, sep, |d| + 1) by { assert body[|d| + 1..|d| + 1 + |sep|] == sep; }
    NothingDropped([d + " ", " " + r]);
  }

  /** `d /by r` is already trimmed when `d` and `r` are. */
  lemma RemarkedBodyTrimmed(kind: Kind, d: string, r: string)
    requires kind != Todo && d != "" && IsTrimmed(d) && r != "" && IsTrimmed(r)
    ensures IsTrimmed(d + " " + Separator(kind) + " " + r)
  {
    var body := d + " " + Separator(kind) + " " + r;
    assert body[0] == d[0] && body[|body| - 1] == r[|r| - 1];
  }

  /** What `deadline` and `event` do with the text after the keyword: a trimmed description
      and remark around the separator. */
  lemma ParseRemarkedBody(kind: Kind, d: string, r: string)
    requires kind != Todo
    requires d != "" && IsTrimmed(d) && !Contains(d, Separator(kind))
    requires r != "" && IsTrimmed(r) && !Contains(r, Separator(kind))
    ensures ParseRemarked(kind, " " + (d + " " + Separator(kind) + " " + r)) == AddTask(kind, d, r)
  {
    RemarkedBodyTrimmed(kind, d, r);
    TrimAfterSpace(d + " " + Separator(kind) + " " + r);
    SplitAtSeparator(kind, d, r);
    TrimBeforeSpace(d);
    TrimAfterSpace(r);
  }

  /** The line `deadline d /by r` (or `event d /at r`) with a description and a remark
      that do not contain the separator: a task with exactly that description and remark. */
  lemma ParseRemarkedLine(kind: Kind, d: string, r: string)
    requires kind != Todo
    requires d != "" && IsTrimmed(d) && !Contains(d, Separator(kind))
    requires r != "" && IsTrimmed(r) && !Contains(r, Separator(kind))
    ensures Parse(Keyword(kind) + " " + d + " " + Separator(kind) + " " + r) == AddTask(kind, d, r)
  {
    var body := d + " " + Separator(kind) + " " + r;
    assert Keyword(kind) + " " + d + " " + Separator(kind) + " " + r == Keyword(kind) + " " + body;
    ParseKeywordLine(kind, body);
    ParseRemarkedBody(kind, d, r);
  }

  /** `d /by r /by x` splits on `/by` into `d `, ` r ` and ` x`. */
  lemma SplitAtTwoSeparators(kind: Kind, d: string, r: string, x: string)
    requires kind != Todo
    requires !Contains(d, Separator(kind)) && !Contains(r, Separator(kind))
    requires x != "" && !Contains(x, Separator(kind))
    ensures Split(d + " " + Separator(kind) + " " + r + " " + Separator(kind) + " " + x, Separator(kind))
      == [d + " ", " " + r + " ", " " + x]
  {
    var sep := Separator(kind);
    var a, b, c := d + " ", " " + r + " ", " " + x;
    var body := d + " " + sep + " " + r + " " + sep + " " + x;
    assert body == a + sep + (b + sep + c);
    NotContainsAfterSpace(r, sep);
    SeparableBeforeSpace(" " + r, sep);
    NotContainsAfterSpace(x, sep);
    SplitAllNone(c, sep);
    SplitAllCons(b, sep, c);
    SeparableBeforeSpace(d, sep);
    SplitAllCons(a, sep, b + sep + c);
    assert SplitAll(body, sep) == [a, b, c];
    SplitKeepsAll(body, sep);
  }

  lemma SecondSeparatorBody(kind: Kind, d: string, r: string, x: string)
    requires kind != Todo
    requires d != "" && IsTrimmed(d) && !Contains(d, Separator(kind))
    requires IsTrimmed(r) && !Contains(r, Separator(kind))
    requires x != "" && IsTrimmed(x) && !Contains(x, Separator(kind))
    ensures ParseRemarked(kind, " " + (d + " " + Separator(kind) + " " + r + " " + Separator(kind) + " " + x))
      == AddTask(kind, d, r)
  {
    var body := d + " " + Separator(kind) + " " + r + " " + Separator(kind) + " " + x;
    TwoSeparatorBodyTrimmed(kind, d, r, x);
    TrimAfterSpace(body);
    SplitAtTwoSeparators(kind, d, r, x);
    TrimBeforeSpace(d);
    TrimBetweenSpaces(r);
  }

  lemma TwoSeparatorBodyTrimmed(kind: Kind, d: string, r: string, x: string)
    requires kind != Todo && d != "" && IsTrimmed(d) && x != "" && IsTrimmed(x)
    ensures IsTrimmed(d + " " + Separator(kind) + " " + r + " " + Separator(kind) + " " + x)
  {
    var body := d + " " + Separator(kind) + " " + r + " " + Separator(kind) + " " + x;
    assert body[0] == d[0] && body[|body| - 1] == x[|x| - 1];
  }

  lemma TrimBetweenSpaces(x: string)
    requires IsTrimmed(x)
    ensures Trim(" " + x + " ") == x
  {
    assert AllSpace(" ");
    TrimPadded(" ", x, " ");
  }

  /** A second separator ends the remark: `deadline d /by r /by x` is a deadline `d` by `r`,
      and ` /by x` is dropped. */
  lemma ParseRemarkedSecondSeparator(kind: Kind, d: string, r: string, x: string)
    requires kind != Todo
    requires d != "" && IsTrimmed(d) && !Contains(d, Separator(kind))
    requires IsTrimmed(r) && !Contains(r, Separator(kind))
    requires x != "" && IsTrimmed(x) && !Contains(x, Separator(kind))
    ensures Parse(Keyword(kind) + " " + d + " " + Separator(kind) + " " + r + " " + Separator(kind) + " " + x)
      == AddTask(kind, d, r)
  {
    var body := d + " " + Separator(kind) + " " + r + " " + Separator(kind) + " " + x;
    assert Keyword(kind) + " " + d + " " + Separator(kind) + " " + r + " " + Separator(kind) + " " + x
      == Keyword(kind) + " " + body;
    ParseKeywordLine(kind, body);
    SecondSeparatorBody(kind, d, r, x);
  }

  lemma RemarkedNoSeparatorBody(kind: Kind, d: string)
    requires kind != Todo && IsTrimmed(d) && !Contains(d, Separator(kind))
    ensures ParseRemarked(kind, " " + d) == Reject(MissingSeparator(kind))
  {
    TrimAfterSpace(d);
  }

  /** `deadline d` (or `event d`) without the separator is refused. */
  lemma ParseRemarkedNoSeparator(kind: Kind, d: string)
    requires kind != Todo && IsTrimmed(d) && !Contains(d, Separator(kind))
    ensures Parse(Keyword(kind) + " " + d) == Reject(MissingSeparator(kind))
  {
    ParseKeywordLine(kind, d);
    RemarkedNoSeparatorBody(kind, d);
  }

  /** Splitting `d /by` on `/by` leaves one piece: the empty one after it is dropped. */
  lemma SplitAtTrailingSeparator(kind: Kind, d: string)
    requires kind != Todo && !Contains(d, Separator(kind))
    ensures Split(d + " " + Separator(kind), Separator(kind)) == [d + " "]
  {
    var sep := Separator(kind);
    var body := d + " " + sep;
    assert body == (d + " ") + sep + "";
    SeparableBeforeSpace(d, sep);
    SplitAllCons(d + " ", sep, "");
    assert !Contains("", sep);
    SplitAllNone("", sep);
    assert OccursAt(body, sep, |d| + 1) by { assert body[|d| + 1..|d| + 1 + |sep|] == sep; }
    var pieces := [d + " ", ""];
    assert pieces[..1] == [d + " "];
    assert DropTrailingEmpty(pieces) == [d + " "];
  }

  lemma RemarkedNoRemarkBody(kind: Kind, d: string)
    requires kind != Todo && d != "" && IsTrimmed(d) && !Contains(d, Separator(kind))
    ensures ParseRemarked(kind, " " + (d + " " + Separator(kind))) == Reject(MissingSeparator(kind))
  {
    var body := d + " " + Separator(kind);
    assert IsTrimmed(body) by { assert body[0] == d[0] && body[|body| - 1] == Separator(kind)[2]; }
    TrimAfterSpace(body);
    SplitAtTrailingSeparator(kind, d);
  }

  /** `deadline d /by` (or `event d /at`) with nothing after the separator is refused. */
  lemma ParseRemarkedNoRemark(kind: Kind, d: string)
    requires kind != Todo && d != "" && IsTrimmed(d) && !Contains(d, Separator(kind))
    ensures Parse(Keyword(kind) + " " + d + " " + Separator(kind)) == Reject(MissingSeparator(kind))
  {
    var body := d + " " + Separator(kind);
    assert Keyword(kind) + " " + d + " " + Separator(kind) == Keyword(kind) + " " + body;
    ParseKeywordLine(kind, body);
    RemarkedNoRemarkBody(kind, d);
  }

  // ---------------------------------------------------------------- one line in, one line out

  /** What `deadline` and `event` take from a line holds no line break. */
  lemma RemarkedOneLine(kind: Kind, rest: string)
    requires kind != Todo && NoLineBreak(rest)
    ensures var c := ParseRemarked(kind, rest);
      c.AddTask? ==> NoLineBreak(c.description) && NoLineBreak(c.remark)
  {
    var text := Trim(rest);
    var parts := Split(text, Separator(kind));
    if |parts| > 1 {
      NoLineBreakTrim(rest);
      NoLineBreakSplit(text, Separator(kind), 0);
      NoLineBreakSplit(text, Separator(kind), 1);
      NoLineBreakTrim(parts[0]);
      NoLineBreakTrim(parts[1]);
    }
  }

  lemma TextAfterOneLine(line: string, n: nat)
    requires n <= |line| && NoLineBreak(line)
    ensures NoLineBreak(line[n..]) && NoLineBreak(Trim(line[n..]))
  {
    NoLineBreakSlice(line, n, |line|);
    assert line[n..|line|] == line[n..];
    NoLineBreakTrim(line[n..]);
  }

  /** A task comes from the text after `todo`, `deadline` or `event`. */
  lemma ParseAddTaskSource(line: string)
    ensures var c := Parse(line);
      c.AddTask? ==>
        (|line| >= 4 && c == AddTask(Todo, Trim(line[4..]), ""))
        || (|line| >= 8 && c == ParseRemarked(Deadline, line[8..]))
        || (|line| >= 5 && c == ParseRemarked(Event, line[5..]))
  {
    var words := Split(line, " ");
    if line != "bye" && |words| > 0 && line != "list" {
      var w := words[0];
      assert w <= line;
      if w == "mark" || w == "unmark" || w == "delete" {
        assert Parse(line).ByIndex? || Parse(line).Reject?;
      } else if w == "todo" {
        assert |line| >= 4;
      } else if w == "deadline" {
        assert |line| >= 8 && Parse(line) == ParseRemarked(Deadline, line[8..]);
      } else if w == "event" {
        assert |line| >= 5 && Parse(line) == ParseRemarked(Event, line[5..]);
      }
    }
  }

  /** A task read from one input line has a description and a remark without line breaks. */
  lemma ParseOneLine(line: string)
    requires NoLineBreak(line)
    ensures var c := Parse(line);
      c.AddTask? ==> NoLineBreak(c.description) && NoLineBreak(c.remark)
  {
    if |line| >= 4 {
      TextAfterOneLine(line, 4);
    }
    if |line| >= 5 {
      RemarkedOneLine(Event, line[5..]) by { TextAfterOneLine(line, 5); }
    }
    if |line| >= 8 {
      RemarkedOneLine(Deadline, line[8..]) by { TextAfterOneLine(line, 8); }
    }
    ParseAddTaskSource(line);
  }

  // ---------------------------------------------------------------- other first words

  /** The words `decide` dispatches on. */
  predicate IsCommandWord(w: string) {
    w == "mark" || w == "unmark" || w == "delete" || w == "todo" || w == "deadline" || w == "event"
  }

  /** Any other first word followed by a space and anything at all is not understood. */
  lemma ParseUnknown(word: string, rest: string)
    requires word != "" && NoSpace(word) && !IsCommandWord(word)
    ensures Parse(word + " " + rest) == Reject(Unrecognized)
  {
    var line := word + " " + rest;
    SplitWordThenRest(word, rest);
    assert line[|word|] == ' ';
    assert NoSpace("bye") && NoSpace("list");
  }

  /** A single word other than `bye`, `list` and the command words is not understood either. */
  lemma ParseUnknownWord(word: string)
    requires word != "" && NoSpace(word) && !IsCommandWord(word) && word != "bye" && word != "list"
    ensures Parse(word) == Reject(Unrecognized)
  {
    SplitWordThenSpaces(word, "");
    assert word + "" == word;
  }

  // ---------------------------------------------------------------- lines behind the findings

  /** `todo`, a space and white space other than spaces (a tab, say) is a to-do with an
      empty description: the white space is a second word, and trimming leaves nothing. */
  lemma ParseTodoBlank(pad: string)
    requires pad != "" && NoSpace(pad) && AllSpace(pad)
    ensures Parse(Keyword(Todo) + " " + pad) == AddTask(Todo, "", "")
  {
    SplitTwoWords(Keyword(Todo), pad);
    assert AllSpace(" " + pad) by {
      forall k | 0 <= k < |" " + pad| ensures IsSpace((" " + pad)[k]) {
        if k > 0 { assert (" " + pad)[k] == pad[k - 1]; }
      }
    }
    TrimAllSpace(" " + pad);
    ParseTodoKeyword(pad);
  }

  lemma NoSlashNotContains(s: string, sep: string)
    requires sep != "" && sep[0] == '/' && forall k :: 0 <= k < |s| ==> s[k] != '/'
    ensures !Contains(s, sep)
  {
    forall k | 0 <= k <= |s| && k + |sep| <= |s| ensures !OccursAt(s, sep, k) {
      assert s[k..k + |sep|][0] == s[k];
    }
  }

  /** `event chat: team /at 5pm` is an event described as `chat: team` at `5pm`. */
  lemma ParseChatEvent(d: string, r: string)
    requires d == "chat: team" && r == "5pm"
    ensures Parse(Keyword(Event) + " " + d + " " + Separator(Event) + " " + r) == AddTask(Event, d, r)
  {
    NoSlashNotContains(d, Separator(Event));
    NoSlashNotContains(r, Separator(Event));
    ParseRemarkedLine(Event, d, r);
  }
}
