/**
  The save file: one record per task, `<type> | <d|nd> | <description>[ | <remark>]`,
  each followed by a newline, and the loader that reads it back line by line.
 */
module Storage {
  import opened JavaStrings
  import opened Tasks
  import opened Seqs

  const FieldSep: string := " | "

  function TypeName(kind: Kind): string {
    match kind
    case Todo => "todo"
    case Deadline => "deadline"
    case Event => "event"
  }

  function StatusField(done: bool): string {
    if done then "d" else "nd"
  }

  /** Only deadlines and events have their remark saved. */
  function SavedRemark(t: Task): string {
    if t.kind == Todo then "" else t.remark
  }

  /** `Character.isWhitespace`: what `Scanner.hasNext` skips when looking for a token. */
  predicate IsJavaWhitespace(c: char) {
    c == ' ' || ('\t' <= c <= '\r') || ('\U{1C}' <= c <= '\U{1F}')
    || c == '\U{1680}' || ('\U{2000}' <= c <= '\U{2006}') || ('\U{2008}' <= c <= '\U{200A}')
    || c == '\U{2028}' || c == '\U{2029}' || c == '\U{205F}' || c == '\U{3000}'
  }

  // ---------------------------------------------------------------- saving

  /** The fields of a record: type, status, description and, for deadlines and events with
      a remark, the remark. */
  function RecordFields(t: Task): (fields: seq<string>)
    ensures 3 <= |fields| <= 4
    ensures fields[0] == TypeName(t.kind) && fields[1] == StatusField(t.done) && fields[2] == t.description
    ensures |fields| == 4 <==> t.kind != Todo && t.remark != ""
    ensures |fields| == 4 ==> fields[3] == t.remark
  {
    [TypeName(t.kind), StatusField(t.done), t.description]
      + (if SavedRemark(t) != "" then [SavedRemark(t)] else [])
  }

  /** One record, `<type> | <status> | <description>[ | <remark>]`: a line that a `Scanner`
      sees as non-blank. */
  function EncodeTask(t: Task): (line: string)
    ensures line != "" && line[0] == TypeName(t.kind)[0] && !IsJavaWhitespace(line[0])
  {
    var fields := RecordFields(t);
    var line := Join(fields, FieldSep);
    assert line == fields[0] + FieldSep + Join(fields[1..], FieldSep);
    assert line[0] == TypeName(t.kind)[0];
    line
  }

  lemma {:induction false} JoinNoLineBreak(pieces: seq<string>)
    requires forall k :: 0 <= k < |pieces| ==> NoLineBreak(pieces[k])
    ensures NoLineBreak(Join(pieces, FieldSep))
    decreases |pieces|
  {
    if |pieces| > 1 {
      JoinNoLineBreak(pieces[1..]);
      assert NoLineBreak(FieldSep);
      NoLineBreakConcat(pieces[0], FieldSep);
      NoLineBreakConcat(pieces[0] + FieldSep, Join(pieces[1..], FieldSep));
    } else if |pieces| == 1 {
      assert Join(pieces, FieldSep) == pieces[0];
    }
  }

  /** A record is a single line when the description and the remark hold no line break. */
  lemma EncodeTaskOneLine(t: Task)
    requires NoLineBreak(t.description) && NoLineBreak(t.remark)
    ensures NoLineBreak(EncodeTask(t))
  {
    var fields := RecordFields(t);
    assert NoLineBreak(TypeName(t.kind)) && NoLineBreak(StatusField(t.done));
    assert forall k :: 0 <= k < |fields| ==> NoLineBreak(fields[k]);
    JoinNoLineBreak(fields);
  }

  /** A task whose description and remark hold no line break: it came from one input line. */
  predicate OneLine(t: Task) {
    NoLineBreak(t.description) && NoLineBreak(t.remark)
  }

  predicate AllOneLine(items: seq<Task>) {
    forall k :: 0 <= k < |items| ==> OneLine(items[k])
  }

  lemma AllOneLineSnoc(items: seq<Task>, t: Task)
    requires AllOneLine(items) && OneLine(t)
    ensures AllOneLine(items + [t])
  {
    assert forall k :: 0 <= k < |items| ==> (items + [t])[k] == items[k];
  }

  /** The whole file: every record followed by a newline, in list order. */
  function EncodeAll(items: seq<Task>): (data: string)
    ensures data == "" <==> items == []
    ensures items != [] ==> data[|data| - 1] == '\n'
  {
    if items == [] then "" else EncodeTask(items[0]) + "\n" + EncodeAll(items[1..])
  }

  /** Saving one more task appends exactly its record. */
  lemma {:induction false} EncodeAllSnoc(items: seq<Task>, t: Task)
    ensures EncodeAll(items + [t]) == EncodeAll(items) + EncodeTask(t) + "\n"
  {
    if items != [] {
      DropSnoc(items, t);
      EncodeAllSnoc(items[1..], t);
      var first, rest, last := EncodeTask(items[0]) + "\n", EncodeAll(items[1..]), EncodeTask(t);
      assert EncodeAll(items + [t]) == first + (rest + last + "\n");
      AppendAssoc(first, rest + last, "\n");
      AppendAssoc(first, rest, last);
    }
  }

  // ---------------------------------------------------------------- reading lines

  /** The first line break at or after `from`, or the end of `s`. */
  function LineEnd(s: string, from: nat): (i: nat)
    requires from <= |s|
    ensures from <= i <= |s|
    ensures i < |s| ==> IsLineBreak(s[i])
    ensures forall k :: from <= k < i ==> !IsLineBreak(s[k])
    decreases |s| - from
  {
    if from == |s| || IsLineBreak(s[from]) then from else LineEnd(s, from + 1)
  }

  predicate IsBlank(s: string) {
    forall k :: 0 <= k < |s| ==> IsJavaWhitespace(s[k])
  }

  /** The lines `while (sc.hasNext()) sc.nextLine()` reads: reading stops once only white
      space is left, and `\r\n` counts as one line end. */
  function ScannerLines(data: string): (lines: seq<string>)
    ensures forall k :: 0 <= k < |lines| ==> NoLineBreak(lines[k])
    decreases |data|
  {
    if IsBlank(data) then []
    else
      var i := LineEnd(data, 0);
      var next :=
        if i == |data| then i
        else if data[i] == '\r' && i + 1 < |data| && data[i + 1] == '\n' then i + 2
        else i + 1;
      [data[..i]] + ScannerLines(data[next..])
  }

  /** A record line followed by a newline is read as exactly that line. */
  lemma ScannerLinesCons(line: string, rest: string)
    requires line != "" && !IsJavaWhitespace(line[0]) && NoLineBreak(line)
    ensures ScannerLines(line + "\n" + rest) == [line] + ScannerLines(rest)
  {
    var data := line + "\n" + rest;
    assert !IsBlank(data) by { assert data[0] == line[0]; }
    var i := LineEnd(data, 0);
    assert data[|line|] == '\n';
    assert i == |line|;
    assert data[..i] == line && data[i + 1..] == rest;
  }

  /** The `save` loop: the record of each task and a newline, appended in list order. */
  method Write(items: seq<Task>) returns (data: string)
    ensures data == EncodeAll(items)
  {
    data := "";
    var i := 0;
    while i < |items|
      invariant 0 <= i <= |items|
      invariant data == EncodeAll(items[..i])
    {
      TakeSnoc(items, i);
      EncodeAllSnoc(items[..i], items[i]);
      data := data + EncodeTask(items[i]) + "\n";
      i := i + 1;
    }
    assert items[..i] == items;
  }

  // ---------------------------------------------------------------- loading

  datatype LineResult = Record(task: Task) | Skipped | Malformed

  /** The body of the `load` loop on the fields of one line: fewer than three fields make
      `taskData[1]` or `taskData[2]` throw, an unknown type is skipped. */
  function DecodeFields(fields: seq<string>): (r: LineResult)
    ensures r.Malformed? <==> |fields| < 3
    ensures r.Skipped? <==> |fields| >= 3 && fields[0] != "todo" && fields[0] != "event" && fields[0] != "deadline"
    ensures r.Record? ==> WellFormed(r.task) && fields[0] == TypeName(r.task.kind)
    ensures r.Record? ==> r.task.description == fields[2] && (r.task.done <==> fields[1] == "d")
    ensures r.Record? ==> r.task.remark == (if |fields| == 4 && r.task.kind != Todo then fields[3] else "")
  {
    if |fields| < 3 then Malformed
    else
      var done := fields[1] == "d";
      var remark := if |fields| == 4 then fields[3] else "";
      if fields[0] == "todo" then Record(Task(Todo, fields[2], "", done))
      else if fields[0] == "event" then Record(Task(Event, fields[2], remark, done))
      else if fields[0] == "deadline" then Record(Task(Deadline, fields[2], remark, done))
      else Skipped
  }

  /** One line as the loader reads it, keeping empty fields (`split(" \\| ", -1)`). */
  function DecodeLine(line: string): (r: LineResult)
    ensures r.Record? ==> WellFormed(r.task)
  {
    DecodeFields(SplitAll(line, FieldSep))
  }

  /** A task read from a line holds no line break. */
  lemma DecodeLineOneLine(line: string)
    requires NoLineBreak(line) && DecodeLine(line).Record?
    ensures OneLine(DecodeLine(line).task)
  {
    var fields := SplitAll(line, FieldSep);
    NoLineBreakSplitAll(line, FieldSep, 2);
    if |fields| == 4 {
      NoLineBreakSplitAll(line, FieldSep, 3);
    }
  }

  /** One line as `load` is written: `split(" \\| ")` drops trailing empty fields. */
  function DecodeLineAsWritten(line: string): (r: LineResult)
    ensures r.Record? ==> WellFormed(r.task)
  {
    DecodeFields(Split(line, FieldSep))
  }

  /** The tasks read, and whether reading stopped on a line that throws. */
  datatype LoadResult = Loaded(tasks: seq<Task>) | Crashed(tasks: seq<Task>)

  function Prepend(t: Task, r: LoadResult): LoadResult {
    match r
    case Loaded(ts) => Loaded([t] + ts)
    case Crashed(ts) => Crashed([t] + ts)
  }

  /** The `load` loop: tasks in line order, unknown types skipped, stopping at a line that throws. */
  function DecodeAll(lines: seq<string>): (r: LoadResult)
    ensures |r.tasks| <= |lines|
    decreases |lines|
  {
    if lines == [] then Loaded([])
    else
      match DecodeLine(lines[0])
      case Malformed => Crashed([])
      case Skipped => DecodeAll(lines[1..])
      case Record(t) => Prepend(t, DecodeAll(lines[1..]))
  }

  /** A first line that reads as a task puts that task in front of what the rest gives. */
  lemma DecodeAllRecord(lines: seq<string>, t: Task)
    requires lines != [] && DecodeLine(lines[0]) == Record(t)
    ensures DecodeAll(lines) == Prepend(t, DecodeAll(lines[1..]))
  {
  }

  lemma DecodeAllCons(line: string, rest: seq<string>, t: Task)
    requires DecodeLine(line) == Record(t)
    ensures DecodeAll([line] + rest) == Prepend(t, DecodeAll(rest))
  {
    assert ([line] + rest)[1..] == rest;
  }

  /** Every task read is well formed. */
  lemma {:induction false} DecodeAllWellFormed(lines: seq<string>)
    ensures AllWellFormed(DecodeAll(lines).tasks)
    decreases |lines|
  {
    if lines != [] {
      DecodeAllWellFormed(lines[1..]);
      var r := DecodeLine(lines[0]);
      if r.Record? {
        DecodeAllRecord(lines, r.task);
        AllWellFormedCons(r.task, DecodeAll(lines[1..]).tasks);
      }
    }
  }

  /** Reading one more line extends what was read before, as the `load` loop does. */
  lemma {:induction false} DecodeAllSnoc(lines: seq<string>, line: string)
    requires DecodeAll(lines).Loaded?
    ensures DecodeAll(lines + [line]) ==
      match DecodeLine(line)
      case Malformed => Crashed(DecodeAll(lines).tasks)
      case Skipped => DecodeAll(lines)
      case Record(t) => Loaded(DecodeAll(lines).tasks + [t])
    decreases |lines|
  {
    if lines == [] {
      assert [line][1..] == [];
    } else {
      DropSnoc(lines, line);
      match DecodeLine(lines[0])
      case Skipped => DecodeAllSnoc(lines[1..], line);
      case Record(t) => DecodeAllSnoc(lines[1..], line);
    }
  }

  /** Once a line throws, the lines after it are never read. */
  lemma {:induction false} DecodeAllStops(lines: seq<string>, rest: seq<string>)
    requires DecodeAll(lines).Crashed?
    ensures DecodeAll(lines + rest) == DecodeAll(lines)
    decreases |lines|
  {
    assert lines != [];
    DropAppend(lines, rest);
    match DecodeLine(lines[0])
    case Malformed =>
    case Skipped => DecodeAllStops(lines[1..], rest);
    case Record(t) => DecodeAllStops(lines[1..], rest);
  }

  /** The three ways one more line can go, as separate facts for the `load` loop. */
  lemma DecodeNextRecord(lines: seq<string>, i: nat)
    requires i < |lines| && DecodeAll(lines[..i]).Loaded? && DecodeLine(lines[i]).Record?
    ensures DecodeAll(lines[..i + 1]) == Loaded(DecodeAll(lines[..i]).tasks + [DecodeLine(lines[i]).task])
  {
    TakeSnoc(lines, i);
    DecodeAllSnoc(lines[..i], lines[i]);
  }

  lemma DecodeNextSkipped(lines: seq<string>, i: nat)
    requires i < |lines| && DecodeAll(lines[..i]).Loaded? && DecodeLine(lines[i]).Skipped?
    ensures DecodeAll(lines[..i + 1]) == DecodeAll(lines[..i])
  {
    TakeSnoc(lines, i);
    DecodeAllSnoc(lines[..i], lines[i]);
  }

  lemma DecodeNextMalformed(lines: seq<string>, i: nat)
    requires i < |lines| && DecodeAll(lines[..i]).Loaded? && DecodeLine(lines[i]).Malformed?
    ensures DecodeAll(lines) == Crashed(DecodeAll(lines[..i]).tasks)
  {
    TakeSnoc(lines, i);
    DecodeAllSnoc(lines[..i], lines[i]);
    DecodeAllStops(lines[..i + 1], lines[i + 1..]);
    TakeDrop(lines, i + 1);
  }

  // ---------------------------------------------------------------- round trip

  /** A field that cannot be confused with the record structure. */
  predicate FieldSafe(f: string) {
    !Contains(f, FieldSep) && NoLineBreak(f)
  }

  /** A task whose record reads back as itself: no `" | "` and no line break in its fields,
      and a description that does not end with `" |"` (which would join the next separator). */
  predicate Storable(t: Task) {
    WellFormed(t) && FieldSafe(t.description) && !EndsWith(t.description, " |") && FieldSafe(t.remark)
  }

  lemma DescriptionSeparable(d: string)
    requires !Contains(d, FieldSep) && !EndsWith(d, " |")
    ensures Separable(d, FieldSep)
  {
    var s := d + FieldSep;
    forall k | 0 <= k < |d| ensures !OccursAt(s, FieldSep, k) {
      if k + 3 <= |d| {
        assert s[k..k + 3] == d[k..k + 3];
        assert !OccursAt(d, FieldSep, k);
      } else if k == |d| - 1 {
        assert s[k..k + 3][1] == ' ';
      } else {
        assert s[k..k + 3][2] == ' ';
        assert s[k..k + 3][..2] == d[|d| - 2..];
      }
    }
  }

  /** The record of a storable task splits into exactly its fields. */
  lemma SplitRecord(t: Task)
    requires Storable(t)
    ensures SplitAll(EncodeTask(t), FieldSep) == RecordFields(t)
  {
    var fields := RecordFields(t);
    SeparableWithoutFirstChar(TypeName(t.kind), FieldSep);
    SeparableWithoutFirstChar(StatusField(t.done), FieldSep);
    if SavedRemark(t) != "" {
      DescriptionSeparable(t.description);
    }
    assert forall k :: 0 <= k < |fields| - 1 ==> Separable(fields[k], FieldSep);
    SplitAllJoin(fields, FieldSep);
  }

  /** A record reads back as the task it was written from. */
  lemma DecodeEncodeTask(t: Task)
    requires Storable(t)
    ensures DecodeLine(EncodeTask(t)) == Record(t)
  {
    SplitRecord(t);
    DecodeRecordFields(t);
  }

  /** The fields of a well-formed task are read as that task. */
  lemma DecodeRecordFields(t: Task)
    requires WellFormed(t)
    ensures DecodeFields(RecordFields(t)) == Record(t)
  {
    var fields := RecordFields(t);
    assert fields[0] == TypeName(t.kind) && fields[2] == t.description;
    assert |fields| == 4 <==> SavedRemark(t) != "";
    assert |fields| == 4 ==> fields[3] == t.remark;
    match t.kind
    case Todo =>
    case Event => assert fields[0] != "todo";
    case Deadline => assert fields[0] != "todo" && fields[0] != "event";
  }

  /** The saved file starts with the first record as a line of its own. */
  lemma EncodeAllLines(items: seq<Task>)
    requires items != [] && NoLineBreak(items[0].description) && NoLineBreak(items[0].remark)
    ensures ScannerLines(EncodeAll(items)) == [EncodeTask(items[0])] + ScannerLines(EncodeAll(items[1..]))
  {
    EncodeTaskOneLine(items[0]);
    ScannerLinesCons(EncodeTask(items[0]), EncodeAll(items[1..]));
  }

  /** The saved file is read back as one line per record, in order: after a save the
      number of records equals the number of tasks. */
  lemma {:induction false} ScannerLinesOfEncodeAll(items: seq<Task>)
    requires forall k :: 0 <= k < |items| ==> NoLineBreak(items[k].description) && NoLineBreak(items[k].remark)
    ensures |ScannerLines(EncodeAll(items))| == |items|
    ensures forall k :: 0 <= k < |items| ==> ScannerLines(EncodeAll(items))[k] == EncodeTask(items[k])
    decreases |items|
  {
    if items == [] {
      assert IsBlank("");
    } else {
      ScannerLinesOfEncodeAll(items[1..]);
      EncodeAllLines(items);
    }
  }

  /** A saved file holds one line per task. */
  lemma EncodeAllLineCount(items: seq<Task>)
    requires AllOneLine(items)
    ensures |ScannerLines(EncodeAll(items))| == |items|
  {
    ScannerLinesOfEncodeAll(items);
  }

  /** Saving and loading gives back the same list: length, order, kind, flag, description, remark. */
  lemma {:induction false} RoundTrip(items: seq<Task>)
    requires forall k :: 0 <= k < |items| ==> Storable(items[k])
    ensures DecodeAll(ScannerLines(EncodeAll(items))) == Loaded(items)
    decreases |items|
  {
    if items == [] {
      assert IsBlank("");
    } else {
      var rest := items[1..];
      assert forall k :: 0 <= k < |rest| ==> rest[k] == items[k + 1];
      RoundTrip(rest);
      RoundTripCons(items);
    }
  }

  /** A storable task saved in front of a list that reads back reads back in front of it. */
  lemma RoundTripCons(items: seq<Task>)
    requires items != [] && Storable(items[0])
    requires DecodeAll(ScannerLines(EncodeAll(items[1..]))) == Loaded(items[1..])
    ensures DecodeAll(ScannerLines(EncodeAll(items))) == Loaded(items)
  {
    var t, rest := items[0], items[1..];
    EncodeAllLines(items);
    DecodeEncodeTask(t);
    DecodeAllCons(EncodeTask(t), ScannerLines(EncodeAll(rest)), t);
    assert [t] + rest == items;
  }

  // ---------------------------------------------------------------- as written

  /** The display form before the description: the type tag, the status box and a space. */
  function RenderPrefix(t: Task): string {
    Tag(t.kind) + (if t.done then "[X]" else "[ ]") + " "
  }

  /** The display form up to where the remark's marker starts. */
  function RenderHead(t: Task): string {
    RenderPrefix(t) + t.description + " ("
  }

  lemma RenderShape(t: Task)
    requires t.kind != Todo
    ensures Render(t) == RenderHead(t) + Label(t.kind) + t.remark + ")"
  {
  }

  /** The remark as `save` recovers it from the display form: from just after the first
      `at: ` (event) or `by: ` (deadline) up to the last character. It always ends with
      the real remark, and is never shorter. */
  function RemarkFromRender(t: Task): (r: string)
    requires t.kind != Todo
    ensures |r| >= |t.remark| && r[|r| - |t.remark|..] == t.remark
  {
    var shown := Render(t);
    var p := |RenderHead(t)|;
    RenderShape(t);
    assert OccursAt(shown, Label(t.kind), p) by {
      assert shown[p..p + 4] == Label(t.kind);
    }
    var i := IndexOf(shown, Label(t.kind)) + 4;
    assert shown[p + 4..|shown| - 1] == t.remark;
    shown[i..|shown| - 1]
  }

  /** The prefix `[E][ ] ` holds no character a marker starts with. */
  lemma NoMarkerInPrefix(t: Task, k: nat)
    requires t.kind != Todo && k < |RenderPrefix(t)|
    ensures !OccursAt(Render(t), Label(t.kind), k)
  {
    var shown, pre := Render(t), RenderPrefix(t);
    assert |pre| == 7;
    assert shown[k] == pre[k];
    assert pre[k] in "[]TDEX ";
    if k + 4 <= |shown| {
      assert shown[k..k + 4][0] == shown[k];
    }
  }

  /** No marker starts before the one `Render` puts in front of the remark when the
      description, with the ` (` after it, holds none. */
  lemma NoEarlierMarker(t: Task, k: nat)
    requires t.kind != Todo && !Contains(t.description + " (", Label(t.kind))
    requires k < |RenderHead(t)|
    ensures !OccursAt(Render(t), Label(t.kind), k)
  {
    var pre, dp, marker := RenderPrefix(t), t.description + " (", Label(t.kind);
    if k < |pre| {
      NoMarkerInPrefix(t, k);
    } else {
      RenderShape(t);
      assert Render(t) == pre + (dp + marker) + (t.remark + ")");
      SeparableLastChar(dp, marker);
      assert !OccursAt(dp + marker, marker, k - |pre|);
      OccursInMiddle(pre, dp + marker, t.remark + ")", marker, k - |pre|);
    }
  }

  /** The recovered remark is the real one as long as no marker occurs earlier, that is
      in the description or where it meets the ` (` before the marker. */
  lemma RemarkFromRenderAgrees(t: Task)
    requires t.kind != Todo && !Contains(t.description + " (", Label(t.kind))
    ensures RemarkFromRender(t) == t.remark
  {
    var shown, marker := Render(t), Label(t.kind);
    var p := |RenderHead(t)|;
    forall k | 0 <= k < p ensures !OccursAt(shown, marker, k) {
      NoEarlierMarker(t, k);
    }
    RenderShape(t);
    assert OccursAt(shown, marker, p) by { assert shown[p..p + 4] == marker; }
  }

  /** The task whose record `save` as written stores: a deadline or an event keeps the
      remark recovered from its display form, a to-do is stored as it is. */
  function AsSaved(t: Task): (s: Task)
    ensures s.kind == t.kind && s.description == t.description && s.done == t.done
    ensures t.kind != Todo ==> |s.remark| >= |t.remark| && s.remark[|s.remark| - |t.remark|..] == t.remark
    ensures t.kind == Todo || !Contains(t.description + " (", Label(t.kind)) ==> s == t
  {
    if t.kind == Todo then t
    else
      var s := t.(remark := RemarkFromRender(t));
      assert !Contains(t.description + " (", Label(t.kind)) ==> s == t by {
        if !Contains(t.description + " (", Label(t.kind)) {
          RemarkFromRenderAgrees(t);
        }
      }
      s
  }

  function AllAsSaved(items: seq<Task>): (r: seq<Task>)
    ensures |r| == |items|
  {
    seq(|items|, k requires 0 <= k < |items| => AsSaved(items[k]))
  }

  /** The file `save` as written produces. */
  function EncodeAllAsWritten(items: seq<Task>): (data: string)
    ensures data == "" <==> items == []
  {
    EncodeAll(AllAsSaved(items))
  }

  /** The `load` loop as written, splitting each line with `split(" \\| ")`. */
  function DecodeAllAsWritten(lines: seq<string>): (r: LoadResult)
    ensures |r.tasks| <= |lines|
    decreases |lines|
  {
    if lines == [] then Loaded([])
    else
      match DecodeLineAsWritten(lines[0])
      case Malformed => Crashed([])
      case Skipped => DecodeAllAsWritten(lines[1..])
      case Record(t) => Prepend(t, DecodeAllAsWritten(lines[1..]))
  }

  /** A task that `save` and `load` as written give back: storable, with a non-empty
      description, and, for a deadline or an event, no marker of its kind in the description
      or where it meets the ` (` that follows it. */
  predicate SurvivesAsWritten(t: Task) {
    Storable(t) && t.description != ""
    && (t.kind != Todo ==> !Contains(t.description + " (", Label(t.kind)))
  }

  /** A record whose description is not empty ends with a non-empty field, so `split(" \\| ")`
      reads it as `split(" \\| ", -1)` does. */
  lemma DecodeAsWrittenAgrees(t: Task)
    requires Storable(t) && t.description != ""
    ensures DecodeLineAsWritten(EncodeTask(t)) == DecodeLine(EncodeTask(t))
  {
    var fields := RecordFields(t);
    SplitRecord(t);
    assert fields[|fields| - 1] != "";
    SplitKeepsAll(EncodeTask(t), FieldSep);
  }

  /** `save` as written stores the tasks unchanged when none has an earlier marker. */
  lemma EncodeAllAsWrittenAgrees(items: seq<Task>)
    requires forall k :: 0 <= k < |items| ==>
      items[k].kind != Todo ==> !Contains(items[k].description + " (", Label(items[k].kind))
    ensures EncodeAllAsWritten(items) == EncodeAll(items)
  {
    assert AllAsSaved(items) == items;
  }

  /** The `load` loop as written reads lines that both splits agree on as the corrected loop does. */
  lemma {:induction false} DecodeAllAsWrittenAgrees(lines: seq<string>)
    requires forall k :: 0 <= k < |lines| ==> DecodeLineAsWritten(lines[k]) == DecodeLine(lines[k])
    ensures DecodeAllAsWritten(lines) == DecodeAll(lines)
    decreases |lines|
  {
    if lines != [] {
      assert DecodeLineAsWritten(lines[0]) == DecodeLine(lines[0]);
      DecodeAllAsWrittenAgrees(lines[1..]);
    }
  }

  /** `save` and `load` as written give back every list of tasks that survive them. */
  lemma RoundTripAsWritten(items: seq<Task>)
    requires forall k :: 0 <= k < |items| ==> SurvivesAsWritten(items[k])
    ensures DecodeAllAsWritten(ScannerLines(EncodeAllAsWritten(items))) == Loaded(items)
  {
    EncodeAllAsWrittenAgrees(items);
    var lines := ScannerLines(EncodeAll(items));
    ScannerLinesOfEncodeAll(items);
    forall k | 0 <= k < |lines| ensures DecodeLineAsWritten(lines[k]) == DecodeLine(lines[k]) {
      DecodeAsWrittenAgrees(items[k]);
    }
    DecodeAllAsWrittenAgrees(lines);
    RoundTrip(items);
  }

  /** An event described as `chat: team` with the remark `5pm` is saved with a longer remark
      (`team (at: 5pm`): the first `at: ` is inside the description. */
  lemma RemarkFromRenderMisreads(t: Task)
    requires t == Task(Event, "chat: team", "5pm", false)
    ensures RemarkFromRender(t) != t.remark
  {
    var shown, pre, d := Render(t), RenderPrefix(t), t.description;
    RenderShape(t);
    assert |pre| == 7 && |shown| == 27;
    assert shown == pre + d + (" (" + Label(t.kind) + t.remark + ")");
    assert shown[9..13] == d[2..6] == "at: ";
    assert OccursAt(shown, Label(t.kind), 9);
    assert IndexOf(shown, Label(t.kind)) <= 9;
    assert |RemarkFromRender(t)| >= 13;
  }

  /** A to-do with an empty description is saved as `todo | nd | `, the fields `todo`, `nd`
      and an empty one. Splitting that line with `split(" \\| ")` leaves two fields, so `load`
      throws on it, while reading it with its empty field kept gives the task back. */
  lemma EmptyDescriptionRecordUnreadable(t: Task)
    requires t == Task(Todo, "", "", false)
    ensures SplitAll(EncodeTask(t), FieldSep) == ["todo", "nd", ""]
    ensures DecodeLineAsWritten(EncodeTask(t)) == Malformed
    ensures DecodeLine(EncodeTask(t)) == Record(t)
  {
    assert RecordFields(t) == ["todo", "nd", ""];
    SplitRecord(t);
    DecodeEncodeTask(t);
    TrailingFieldDropped(EncodeTask(t));
  }

  lemma TrailingFieldDropped(line: string)
    requires SplitAll(line, FieldSep) == ["todo", "nd", ""]
    ensures Split(line, FieldSep) == ["todo", "nd"]
  {
    var pieces := SplitAll(line, FieldSep);
    assert IndexOf(line, FieldSep) != -1;
    assert pieces[..2] == ["todo", "nd"];
    assert DropTrailingEmpty(pieces) == ["todo", "nd"];
  }
}
