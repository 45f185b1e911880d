# Duke task tracker, modelled in Dafny

Duke is a command-line task tracker. It keeps an ordered list of tasks, and each task is one of three kinds:

- a to-do;
- a deadline, with a "by" remark;
- an event, with an "at" remark.

Every task also has a description and a done flag. Duke reads one command per line:

- `list` shows the tasks.
- `mark n` and `unmark n` set or clear task `n`'s done flag.
- `delete n` removes task `n`.
- `todo d`, `deadline d /by r` and `event d /at r` add a task.
- `bye` ends the session.

After every change the whole list is written to a save file, one record per line: `<type> | <d|nd> | <description>[ | <remark>]`. The file is read back when Duke starts.

The model is split into modules:

- `JavaStrings` gives the Java library operations the interpreter relies on, with Java's semantics:
  - `indexOf`;
  - `split` on a literal separator, including the dropping of trailing empty pieces;
  - `split(sep, -1)`;
  - `trim`;
  - `Integer.parseInt`, restricted to ASCII digits and the 32-bit range;
  - the decimal rendering of an `int`.
- `Tasks` holds the task value, the task a new command creates and its display form (`[D][X] d (by: r)`).
- `Storage` holds the record encoder, the whole-file encoder, the line reader of `Scanner.hasNext`/`nextLine`, the record decoder and the `load` loop. The encoder writes each task's own remark and the decoder splits with `split(" \\| ", -1)`: these are the corrected forms of the two findings below, and `RoundTrip` proves that they give back every list of storable tasks. The code as written is modelled beside them:
  - `AsSaved` and `EncodeAllAsWritten` store the remark that `save` recovers from the display form;
  - `DecodeLineAsWritten` and `DecodeAllAsWritten` split with `split(" \\| ")`;
  - `RoundTripAsWritten` proves that the program as written gives back every list whose tasks are storable (well formed, no ` | ` or line break in a field, no description ending in ` |`), have a non-empty description and have no earlier `by: `/`at: ` marker.
- `Commands` turns an input line into a command the way `decide` does:
  - the line is split on single spaces;
  - `parseInt` is applied to the task number;
  - `todo` takes `substring(4).trim()`;
  - `deadline` and `event` split the trimmed remainder on `/by` or `/at`. Only the first two pieces are used: text after a second separator is dropped, so `deadline a /by b /by c` adds a deadline `a` by `b` (`ParseRemarkedSecondSeparator`).
- `Duke` holds three things:
  - `Apply`, the specification of what a command does to the list, and `Step`, which applies it to the command parsed from a line;
  - the listing;
  - the `Session` class. Its `items` field is the task list and its `file` field is the save file's contents. Its methods `Add`, `MarkDone`, `MarkUndone`, `Delete`, `List`, `Save`, `Load` and `Decide` change them in place and are proved against `Apply` and the encoders. Its invariant `Valid` says that every task is well formed and that no description or remark holds a line break, as none can when it comes from a line read by `nextLine`. Under it, the saved file always holds exactly one line per task.

## Model

| member | source | states |
|---|---|---|
| JavaStrings.IndexOf | src/main/java/Duke.java:251 | the result is -1 exactly when the separator does not occur; otherwise it is an occurrence with none before it |
| JavaStrings.SplitAll | src/main/java/Duke.java:277 | `split(sep, -1)`, the building block of `split` with limit 0 (`Split`) and the splitter of the corrected decoder: every piece is free of the separator and the first piece is a prefix of the input |
| JavaStrings.JoinSplitAll | src/main/java/Duke.java:277 | joining the pieces with the separator gives the input back: splitting loses nothing |
| JavaStrings.SplitAllJoin | src/main/java/Duke.java:277 | splitting the pieces joined with the separator gives the pieces back, when no piece but the last leaves an occurrence of the separator |
| JavaStrings.SplitAllLastPiece | src/main/java/Duke.java:277 | the last piece is empty only when the input is empty or ends with the separator |
| JavaStrings.DropTrailingEmpty | src/main/java/Duke.java:38 | the result is a prefix of the pieces, ends with a non-empty piece, and only empty pieces were removed |
| JavaStrings.NothingDropped | src/main/java/Duke.java:277 | pieces whose last piece is not empty lose nothing to the dropping of trailing empty pieces |
| JavaStrings.SplitKeepsAll | src/main/java/Duke.java:277 | `split(sep)` and `split(sep, -1)` give the same pieces when the separator occurs and the last piece is not empty |
| JavaStrings.Split | src/main/java/Duke.java:38 | `String.split` with limit 0: pieces free of the separator, the first piece a prefix of the input |
| JavaStrings.SplitAllCons | src/main/java/Duke.java:130 | when no occurrence starts inside `a`, splitting `a + sep + b` yields `a` followed by the pieces of `b` |
| JavaStrings.SplitAllNone | src/main/java/Duke.java:130 | a string without the separator splits into itself |
| JavaStrings.Trim | src/main/java/Duke.java:126 | the result has no character up to U+0020 at either end |
| JavaStrings.TrimPadded | src/main/java/Duke.java:126 | trimming a trimmed string padded with white space on both sides gives exactly that string |
| JavaStrings.TrimKeepsFirst | src/main/java/Duke.java:211 | a string starting with a visible character keeps it as the first character after trimming |
| JavaStrings.TrimAllSpace | src/main/java/Duke.java:126 | trimming a string of white space only gives the empty string |
| JavaStrings.NoLineBreakTrim | src/main/java/Duke.java:126 | trimming a string without line breaks gives one without line breaks |
| JavaStrings.NoLineBreakSplitAll | src/main/java/Duke.java:277 | every piece of a string without line breaks is without line breaks |
| JavaStrings.NoLineBreakSplit | src/main/java/Duke.java:130 | the same for `split` with limit 0 |
| JavaStrings.ParseInt | src/main/java/Duke.java:70 | `Integer.parseInt`: an accepted value lies in the 32-bit range |
| JavaStrings.ParseIntRejects | src/main/java/Duke.java:80-82 | a character that is neither a digit nor a sign makes parsing fail (NumberFormatException) |
| JavaStrings.NatToString | src/main/java/Duke.java:209 | the rendering of `i + 1` is a non-empty string of digits whose value is the number, with no leading zero |
| JavaStrings.ParseIntOfNatToString | src/main/java/Duke.java:70 | `parseInt` reads back the rendering of every number up to `MaxInt32` |
| Tasks.NewTask | src/main/java/Duke.java:172-192 | a new task has the requested kind and description, is not done, keeps the remark for deadlines and events, and has none for a to-do |
| Tasks.Render | src/main/java/Duke.java:251-255 | the display form starts with the three-character type tag, shows `X` in its box exactly when the task is done, and is at least seven characters longer than the description |
| Storage.EncodeTask | src/main/java/Duke.java:257-260 | a record is never blank: it starts with the first letter of its type name, which a `Scanner` does not skip as white space |
| Storage.RecordFields | src/main/java/Duke.java:257-260 | the fields are the type name, `d` or `nd`, the description and, only for a deadline or event with a non-empty remark, the remark |
| Storage.EncodeTaskOneLine | src/main/java/Duke.java:257-261 | a record is a single line when the description and the remark contain no line break |
| Storage.EncodeAllSnoc | src/main/java/Duke.java:243-262 | saving one more task appends exactly its record and a newline, in list order |
| Storage.EncodeAll | src/main/java/Duke.java:243-262 | the file is empty exactly when the list is, and otherwise ends with a newline |
| Storage.Write | src/main/java/Duke.java:243-262 | the text built record by record in the loop is the file `EncodeAll` specifies |
| Storage.ScannerLines | src/main/java/Duke.java:276-277 | the lines read never contain a line break |
| Storage.ScannerLinesCons | src/main/java/Duke.java:276-277 | a record followed by a newline is read as exactly that line, then the rest |
| Storage.DecodeFields | src/main/java/Duke.java:278-309 | fewer than three fields throws; three or more with a first field other than `todo`, `event` and `deadline` are skipped; otherwise the task has the kind named by field 0 and the description of field 2, is done exactly when field 1 is `d`, and has the remark of field 3 when there are four fields and the kind is not a to-do, none otherwise |
| Storage.DecodeLine | src/main/java/Duke.java:277-309 | a decoded task is well formed: a to-do has no remark (corrected split, see Left out) |
| Storage.DecodeLineAsWritten | src/main/java/Duke.java:277 | the as-written decoder also yields only well-formed tasks |
| Storage.DecodeLineOneLine | src/main/java/Duke.java:276-277 | a task decoded from a line without line breaks has none in its description or remark |
| Storage.DecodeAll | src/main/java/Duke.java:276-310 | the loop reads at most one task per line (corrected split, see Left out) |
| Storage.DecodeAllWellFormed | src/main/java/Duke.java:276-310 | every task read is well formed |
| Storage.DecodeAllRecord | src/main/java/Duke.java:285-306 | a first line that decodes to a task puts that task in front of the tasks read from the other lines |
| Storage.DecodeAllCons | src/main/java/Duke.java:285-306 | a first line that decodes to a task and a rest that loads cleanly load as that task followed by the rest's tasks |
| Storage.DecodeAllSnoc | src/main/java/Duke.java:276-310 | reading one more line appends its task, skips an unknown type, or stops on a line that throws |
| Storage.DecodeAllStops | src/main/java/Duke.java:276-310 | once a line throws, the lines after it are never read |
| Storage.DecodeNextRecord | src/main/java/Duke.java:285-306 | after a line that decodes to a task, the tasks read so far gain exactly that task at the end |
| Storage.DecodeNextSkipped | src/main/java/Duke.java:307-308 | a line with an unknown type adds nothing to the tasks read so far |
| Storage.DecodeNextMalformed | src/main/java/Duke.java:277-280 | a line with fewer than three fields ends loading with exactly the tasks read before it, whatever follows |
| Storage.SplitRecord | src/main/java/Duke.java:257-259 | the record of a storable task splits on ` \| ` into exactly its type, status, description and (non-empty) remark |
| Storage.DecodeRecordFields | src/main/java/Duke.java:278-309 | the fields type, status, description and (for a remark that is not empty) remark of a well-formed task decode to that task |
| Storage.DecodeEncodeTask | src/main/java/Duke.java:276-310 | a storable task's record decodes back to the same task |
| Storage.ScannerLinesOfEncodeAll | src/main/java/Duke.java:261 | the saved file reads back as one line per task, line `k` being task `k`'s record |
| Storage.EncodeAllLines | src/main/java/Duke.java:261 | the saved file is read as the first record as a line of its own, then the lines of the rest |
| Storage.EncodeAllLineCount | src/main/java/Duke.java:261 | a saved list of tasks without line breaks reads back as exactly one line per task |
| Storage.RoundTrip | src/main/java/Duke.java:243-310 | saving a list of storable tasks and loading the file gives back the same list: length, order, kind, flag, description and remark |
| Storage.RoundTripCons | src/main/java/Duke.java:243-310 | the round trip of a list follows from its first task's and its tail's |
| Storage.RenderShape | src/main/java/Duke.java:251-255 | the display form of a deadline or event ends with the marker, the remark and `)` |
| Storage.RemarkFromRender | src/main/java/Duke.java:251-255 | the remark as `save` recovers it always ends with the real remark and is never shorter |
| Storage.NoEarlierMarker | src/main/java/Duke.java:251-255 | no marker starts before the one in front of the remark when the description followed by ` (` contains none |
| Storage.RemarkFromRenderAgrees | src/main/java/Duke.java:251-255 | the recovered remark is the real one when the marker does not occur earlier in the display form |
| Storage.AsSaved | src/main/java/Duke.java:250-260 | `save` as written keeps kind, description and flag; a deadline's or event's stored remark ends with its real remark, and is that remark when the description followed by ` (` holds no marker |
| Storage.EncodeAllAsWritten | src/main/java/Duke.java:243-262 | the file `save` as written produces is empty exactly when the list is |
| Storage.DecodeAllAsWritten | src/main/java/Duke.java:276-310 | the `load` loop as written reads at most one task per line |
| Storage.DecodeAsWrittenAgrees | src/main/java/Duke.java:277 | the record of a storable task with a non-empty description is read by `split(" \\\| ")` as by `split(" \\\| ", -1)` |
| Storage.EncodeAllAsWrittenAgrees | src/main/java/Duke.java:250-256 | `save` as written stores the tasks unchanged when no deadline's or event's description, followed by ` (`, holds its marker |
| Storage.DecodeAllAsWrittenAgrees | src/main/java/Duke.java:276-310 | the loop as written reads lines on which both splits agree as the corrected loop does |
| Storage.RoundTripAsWritten | src/main/java/Duke.java:243-310 | `save` and `load` as written give back the same list when every task is storable, has a non-empty description and no earlier marker |
| Storage.RemarkFromRenderMisreads | src/main/java/Duke.java:251-255 | the event `chat: team` at `5pm` has its remark recovered as something other than `5pm` |
| Storage.EmptyDescriptionRecordUnreadable | src/main/java/Duke.java:277-280 | the to-do with an empty description is saved as the fields `todo`, `nd` and an empty one; the as-written decoder throws on that line, while keeping the empty field reads the task back |
| Storage.TrailingFieldDropped | src/main/java/Duke.java:277 | `split(" \\\| ")` of the line `todo \| nd \| ` leaves only the fields `todo` and `nd` |
| Commands.Parse | src/main/java/Duke.java:57-150 | added descriptions and remarks are trimmed; task numbers are within the 32-bit range |
| Commands.ParseIndex | src/main/java/Duke.java:65-82 | a number command is accepted exactly when a second word exists and parses as an integer, which becomes the task number; otherwise it is the missing-argument error when there is no second word and the not-an-integer error when there is |
| Commands.ParseRemarked | src/main/java/Duke.java:129-147 | a deadline or event is either the missing-separator error or a task of that kind whose trimmed text contains the separator and whose description and remark are trimmed |
| Commands.SplitWordThenSpaces | src/main/java/Duke.java:38 | a word followed only by spaces splits into that word alone |
| Commands.SplitTwoWords | src/main/java/Duke.java:38 | a word, a space and a second word without spaces split into exactly those two words |
| Commands.ParseIndexLine | src/main/java/Duke.java:65-70 | `mark`, `unmark` or `delete` followed by one word parses that word as the task number, or fails as not an integer |
| Commands.ParseIndexAlone | src/main/java/Duke.java:66-68 | `mark`, `unmark` or `delete` followed only by spaces lacks its argument |
| Commands.ParseKeywordLine | src/main/java/Duke.java:122-147 | a keyword line is dispatched on its keyword: a to-do takes the trimmed rest; a deadline or event parses the text after the keyword |
| Commands.ParseTodoKeyword | src/main/java/Duke.java:122-127 | `todo` and a rest is the empty-to-do error when the line is one word, otherwise a to-do described by the trimmed rest |
| Commands.ParseDeadlineKeyword | src/main/java/Duke.java:129-130 | `deadline` and a rest is parsed from the text after the eight letters of the keyword |
| Commands.ParseEventKeyword | src/main/java/Duke.java:139-140 | `event` and a rest is parsed from the text after the five letters of the keyword |
| Commands.ParseTodoLine | src/main/java/Duke.java:122-127 | `todo d` adds a to-do described exactly `d` |
| Commands.ParseTodoAlone | src/main/java/Duke.java:123-125 | `todo` followed only by spaces is the empty-to-do error |
| Commands.ParseTodoBlank | src/main/java/Duke.java:123-126 | `todo` followed by a space and white space that is not a space (a tab) adds a to-do with an empty description |
| Commands.SplitAtSeparator | src/main/java/Duke.java:130 | `d /by r` splits on the separator into `d ` and ` r` |
| Commands.ParseRemarkedBody | src/main/java/Duke.java:130-137 | the trimmed first and second pieces become the description and the remark |
| Commands.ParseRemarkedLine | src/main/java/Duke.java:129-148 | `deadline d /by r` and `event d /at r` add a task with exactly that description and remark |
| Commands.SplitAtTwoSeparators | src/main/java/Duke.java:130 | `d /by r /by x` splits into `d `, ` r ` and ` x` |
| Commands.ParseRemarkedSecondSeparator | src/main/java/Duke.java:129-147 | `deadline d /by r /by x` and `event d /at r /at x` add a task with description `d` and remark `r`: the text after a second separator is dropped |
| Commands.ParseRemarkedNoSeparator | src/main/java/Duke.java:130-134 | without the separator, a deadline or event is refused |
| Commands.SplitAtTrailingSeparator | src/main/java/Duke.java:130-131 | `d /by` splits into one piece, because the empty piece after the separator is dropped |
| Commands.ParseRemarkedNoRemark | src/main/java/Duke.java:130-134 | with nothing after the separator, a deadline or event is refused |
| Commands.ParseUnknown | src/main/java/Duke.java:149-150 | a first word other than the command words, followed by a space, is not understood |
| Commands.ParseUnknownWord | src/main/java/Duke.java:149-150 | a single word other than `bye`, `list` and the command words is not understood |
| Commands.ParseChatEvent | src/main/java/Duke.java:139-147 | `event chat: team /at 5pm` is an event described `chat: team` at `5pm` |
| Commands.RemarkedOneLine | src/main/java/Duke.java:130-136 | the description and remark parsed from text without line breaks have none |
| Commands.ParseAddTaskSource | src/main/java/Duke.java:122-147 | an added task's fields come from the trimmed text after `todo`, or from the text after `deadline` or `event` |
| Commands.ParseOneLine | src/main/java/Duke.java:57-150 | a task added by a line without line breaks has none in its description or remark |
| Duke.RowsConcat | src/main/java/Duke.java:207-210 | the rows of two lists in sequence are the rows of each, with the numbering continued |
| Duke.RowsSnoc | src/main/java/Duke.java:207-210 | one more task adds one row, numbered after the others |
| Duke.Row | src/main/java/Duke.java:209 | a row starts with a tab, the task number with no leading zero and a dot, and ends with a newline |
| Duke.Rows | src/main/java/Duke.java:207-210 | the rows are empty exactly when the list is |
| Duke.ListingRow | src/main/java/Duke.java:207-210 | task `k` appears on its own row numbered `k + 1`, after the rows of the earlier tasks and before those of the later ones |
| Duke.Listing | src/main/java/Duke.java:202-212 | the listing is the "No items stored" message exactly when the list is empty |
| Duke.Apply | src/main/java/Duke.java:57-150 | outcomes other than add, mark, unmark and delete leave the list unchanged; listing shows `Listing`. Adding appends the new, not-done task and reports the new size. Marking and unmarking keep the length and set or clear the flag. Deleting shortens the list by one and reports the new size. Well-formedness is preserved |
| Duke.ParseIndexLineOf | src/main/java/Duke.java:70 | the line `<command> k+1` is parsed back to the task number `k + 1` |
| Duke.MarkTask | src/main/java/Duke.java:69-76 | `mark k+1` sets the flag of task `k`; every other task and the length are unchanged |
| Duke.UnmarkTask | src/main/java/Duke.java:88-95 | `unmark k+1` clears the flag of task `k`; every other task and the length are unchanged |
| Duke.MarkIdempotent | src/main/java/Duke.java:69-76 | repeating a `mark` or `unmark` line leaves the list as doing it once |
| Duke.DeleteTask | src/main/java/Duke.java:108-111 | `delete k+1` removes exactly task `k`: the new list is the tasks before it and those after it |
| Duke.IndexMissingArgument | src/main/java/Duke.java:66-68 | a missing task number is an error and the list is unchanged |
| Duke.IndexNotInteger | src/main/java/Duke.java:80-82 | an argument that is not an integer is an error and the list is unchanged |
| Duke.IndexOutOfRange | src/main/java/Duke.java:77-79 | a number outside 1..size is an error and the list is unchanged |
| Duke.AddTodo | src/main/java/Duke.java:122-128 | `todo d` appends one not-done to-do described `d`, keeping the earlier tasks; the size grows by one |
| Duke.TodoWithoutDescription | src/main/java/Duke.java:123-125 | `todo` alone is an error and the list is unchanged |
| Duke.AddRemarked | src/main/java/Duke.java:129-148 | `deadline d /by r` and `event d /at r` append one not-done task with that description and remark, keeping the earlier tasks |
| Duke.RemarkedWithoutSeparator | src/main/java/Duke.java:131-134 | a deadline or event without its separator is an error and the list is unchanged |
| Duke.RemarkedWithoutRemark | src/main/java/Duke.java:130-134 | a deadline or event with nothing after its separator is an error and the list is unchanged |
| Duke.UnknownCommand | src/main/java/Duke.java:149-150 | any other first word is an error and the list is unchanged |
| Duke.AddBlankTodo | src/main/java/Duke.java:122-127 | `todo` and a tab appends a to-do with an empty description |
| Duke.AddChatEvent | src/main/java/Duke.java:139-147 | `event chat: team /at 5pm` appends an event whose remark the as-written `save` misreads |
| Duke.Session.constructor | src/main/java/Duke.java:24 | the program starts with an empty list |
| Duke.Session.Save | src/main/java/Duke.java:240-262 | the file becomes the records of all tasks in list order and reads back as exactly one line per task; the list is unchanged |
| Duke.Session.Load | src/main/java/Duke.java:270-314 | the tasks decoded from the file's lines are appended in order, stopping at a line that throws (which in Java ends the program); a missing file changes nothing; the invariant is kept |
| Duke.Session.LoadLines | src/main/java/Duke.java:276-310 | the loop over lines without line breaks appends the tasks the lines decode to, in order, and stops at a line that throws; the file is unchanged and the invariant kept |
| Duke.Session.Add | src/main/java/Duke.java:172-197 | exactly the new task is appended, then the list is saved; the invariant is kept |
| Duke.Session.MarkDone | src/main/java/Duke.java:72-74 | only task `i`'s flag is set, then the list is saved |
| Duke.Session.MarkUndone | src/main/java/Duke.java:91-93 | only task `i`'s flag is cleared, then the list is saved |
| Duke.Session.Delete | src/main/java/Duke.java:219-222 | exactly task `i` is removed, then the list is saved |
| Duke.Session.List | src/main/java/Duke.java:202-213 | the text built row by row is the listing of the current list |
| Duke.Session.Decide | src/main/java/Duke.java:57-153 | for a line without line breaks, the outcome and the new list are those of `Step`; after every add, mark, unmark and delete, even one that leaves the list as it was, the file is rewritten and holds one line per task; otherwise it is left alone |
| Duke.Session.Execute | src/main/java/Duke.java:57-150 | the outcome and the new list are those of `Apply`; the file is rewritten after every add, mark, unmark and delete and left alone otherwise |
| Duke.Session.ExecuteIndex | src/main/java/Duke.java:65-121 | `mark`, `unmark` and `delete` change the list as `Apply` does; the file is rewritten unless the number is refused |

## Left out

- Console output is left out: the bordered `echo` and the wording of every message. Each response is an `Outcome` value instead: exit, ignored, listed text, added, marked, unmarked, deleted, or one of the error categories.
- The read loop in `main` over standard input is left out; `Decide` handles one line. `bye` appears only as the `Exit` outcome.
- File-system work is left out: creating the `data` directory and the file, opening and closing them, and the swallowed `IOException` and `FileNotFoundException`. The save file is the `file` field, whose value is `None` while the file does not exist.
- Reflection on the task's class name is replaced by the stored `kind`.
- Duke.Session.Save writes the remark stored in the task, not the remark recovered from `toString`. The as-written save is modelled separately as `Storage.AsSaved` and `Storage.EncodeAllAsWritten`; see the findings.
- Duke.Session.Load decodes each line with `split(" \\| ", -1)`, which keeps empty fields, rather than with `split(" \\| ")`. The as-written decoder is `Storage.DecodeLineAsWritten`; see the findings.
- Duke.Session.LoadLines uses the same corrected decoder as `Duke.Session.Load`.
- Storage.DecodeLine splits with limit -1, where line 277 uses limit 0. It models the corrected line 277, not the line as written, which is `Storage.DecodeLineAsWritten`.
- Storage.DecodeAll uses the corrected `Storage.DecodeLine`; the loop as written is `Storage.DecodeAllAsWritten`.
- Storage.DecodeEncodeTask is about the corrected decoder; `Storage.DecodeAsWrittenAgrees` gives the same for the decoder as written when the description is not empty.
- Storage.RoundTrip is about the corrected save and load; the program as written is covered by `Storage.RoundTripAsWritten`, for storable tasks that avoid the two findings: a non-empty description and no earlier marker.
- A line that throws during `load` stops the model with `Crashed` and the tasks read so far. In Java, `load` catches only `FileNotFoundException` (line 311), so the `ArrayIndexOutOfBoundsException` escapes `main` and Duke ends before reading any command. The model does not follow the program past that point.
- The `Todo`, `Deadline` and `Event` classes are not part of this model. Their display form (`[T][ ] d`, ` (by: r)`, ` (at: r)`) is inferred from how `save` cuts the remark out of it.
- Tasks.NewTask assumes that the `Todo`, `Deadline` and `Event` constructors accept any description, the empty one included, and check nothing. The second finding rests on this assumption, since those classes are not part of this model.
- Duke.Session.Decide requires its line to hold no line break, and Duke.Session.Add the same of the description and the remark: `Scanner.nextLine` in `main` never returns one.
- The save file's character set is abstracted: the file is a `string`, read back exactly as written. `FileWriter` and `Scanner(File)` use the platform's default charset, so `Storage.RoundTrip` about the disk also assumes a charset that can encode every character of the tasks.
- JavaStrings.ParseInt accepts ASCII digits only. Java's `Integer.parseInt` also accepts other Unicode decimal digits.
- Tasks are values. In Java, `mark` changes the task object the list holds, but no other reference to it exists, so the model is equivalent.
- src/main/java/utils/Ui.java is presentation only and is not part of this model.
- The list size is unbounded. Java's `Integer.parseInt(arr[1]) - 1` overflows only for `Integer.MIN_VALUE`, where it wraps to `Integer.MAX_VALUE`. An `ArrayList` holds at most `Integer.MAX_VALUE` elements, so that index is never below its size, and the in-range test `1 <= n <= size` refuses the same numbers.

## Findings

| source | as written | input that shows it | evidently intended | confidence | as-written member | corrected member |
|---|---|---|---|---|---|---|
| src/main/java/Duke.java:251-255 | `save` takes the remark as the text after the first `at: ` (events) or `by: ` (deadlines) in the display form | `event chat: team /at 5pm` displays as `[E][ ] chat: team (at: 5pm)` and is saved with remark `team (at: 5pm` | save the task's own remark, so that the record reads back as the same event | high, not executed | Storage.RemarkFromRenderMisreads | Storage.DecodeEncodeTask |
| src/main/java/Duke.java:277-280 | `load` splits each line with `split(" \\\| ")`, which drops trailing empty fields, then reads `taskData[2]` | `todo \t` (a tab) adds a to-do with an empty description, saved as `todo \| nd \| `; on the next start that line splits into two fields and `load` throws `ArrayIndexOutOfBoundsException`, which nothing catches, so Duke ends before reading a command (assuming the `Todo` constructor accepts an empty description) | keep empty fields (`split(" \\\| ", -1)`), so that every saved record reads back; rejecting a to-do whose trimmed description is empty at line 123 would be an equally evident fix | medium, not executed | Storage.EmptyDescriptionRecordUnreadable | Storage.DecodeLine |
