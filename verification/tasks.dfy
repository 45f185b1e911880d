/**
  The task entity: a to-do, a deadline (with a due remark) or an event (with a time remark),
  a description and a done flag, and its one-line display form.
 */
module Tasks {
  datatype Kind = Todo | Deadline | Event

  datatype Task = Task(kind: Kind, description: string, remark: string, done: bool)

  /** A to-do carries no remark. */
  predicate WellFormed(t: Task) {
    t.kind == Todo ==> t.remark == ""
  }

  predicate AllWellFormed(items: seq<Task>) {
    forall k :: 0 <= k < |items| ==> WellFormed(items[k])
  }

  lemma AllWellFormedSnoc(items: seq<Task>, t: Task)
    requires AllWellFormed(items) && WellFormed(t)
    ensures AllWellFormed(items + [t])
  {
    forall k | 0 <= k < |items| + 1 ensures WellFormed((items + [t])[k]) {
      if k < |items| { assert (items + [t])[k] == items[k]; }
    }
  }

  lemma AllWellFormedCons(t: Task, items: seq<Task>)
    requires WellFormed(t) && AllWellFormed(items)
    ensures AllWellFormed([t] + items)
  {
    forall k | 0 <= k < |items| + 1 ensures WellFormed(([t] + items)[k]) {
      if k > 0 { assert ([t] + items)[k] == items[k - 1]; }
    }
  }

  /** The task `add` creates: not done, and a to-do ignores the remark it is given. */
  function NewTask(kind: Kind, description: string, remark: string): (t: Task)
    ensures WellFormed(t) && !t.done
    ensures t.kind == kind && t.description == description
    ensures kind != Todo ==> t.remark == remark
  {
    Task(kind, description, if kind == Todo then "" else remark, false)
  }

  function Tag(kind: Kind): string {
    match kind
    case Todo => "[T]"
    case Deadline => "[D]"
    case Event => "[E]"
  }

  /** The text that introduces the remark in the display form. */
  function Label(kind: Kind): string
    requires kind != Todo
  {
    if kind == Deadline then "by: " else "at: "
  }

  /** The display form: `[T][ ] d`, `[D][X] d (by: r)`, `[E][ ] d (at: r)`. It starts with
      the tag of the task's type and a box marked exactly when the task is done. */
  function Render(t: Task): (shown: string)
    ensures |shown| >= 7 + |t.description| && shown[..3] == Tag(t.kind)
    ensures shown[4] == 'X' <==> t.done
  {
    var head := Tag(t.kind) + (if t.done then "[X]" else "[ ]") + " " + t.description;
    assert head[..3] == Tag(t.kind);
    head + (if t.kind == Todo then "" else " (" + Label(t.kind) + t.remark + ")")
  }

}
