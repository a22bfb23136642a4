/**
  svara-ai-task-management/src/components/TaskCard.tsx: the buttons a task
  card offers for moving its task between board columns, and the colour
  classes of its priority badge.
 */
module TaskCard {
  import opened Schema

  /** A button on the card: its caption and the status its click requests. */
  datatype Action = Action(caption: string, target: TaskStatus)

  /** `getStatusActions`, on the status string the card was given: one
      button from "todo" and from "done", two from "in-progress", none for
      any other string. */
  function StatusActions(status: string): (r: seq<Action>)
    ensures ParseTaskStatus(status).None? <==> r == []
    ensures |r| <= 2
  {
    if status == "todo" then [Action("Start", InProgress)]
    else if status == "in-progress" then [Action("Back to To Do", Todo), Action("Complete", Done)]
    else if status == "done" then [Action("Reopen", InProgress)]
    else []
  }

  /** The card for status `from` offers a button that moves the task to `to`. */
  predicate Offers(from: TaskStatus, to: TaskStatus) {
    exists i :: 0 <= i < |StatusActions(TaskStatusName(from))|
             && StatusActions(TaskStatusName(from))[i].target == to
  }

  /** The board columns in order: to do, in progress, done. */
  function Column(s: TaskStatus): int {
    match s
    case Todo => 0
    case InProgress => 1
    case Done => 2
  }

  /** The buttons move a task exactly one column left or right: from
      "todo" only to "in-progress" (Start), from "in-progress" to "todo"
      (Back to To Do) or "done" (Complete), from "done" only to
      "in-progress" (Reopen). */
  lemma OffersAdjacentColumns(from: TaskStatus, to: TaskStatus)
    ensures Offers(from, to) <==> Column(from) - Column(to) == 1 || Column(to) - Column(from) == 1
  {
    var acts := StatusActions(TaskStatusName(from));
    if Column(from) - Column(to) == 1 || Column(to) - Column(from) == 1 {
      if from == InProgress {
        assert acts[if to == Todo then 0 else 1].target == to;
      } else {
        assert acts[0].target == to;
      }
    }
  }

  /** The moves the buttons offer: no button keeps the status, "todo" and
      "done" are never one click apart, and every move can be undone by
      one click. */
  lemma MoveShape(a: TaskStatus, b: TaskStatus)
    ensures !Offers(a, a)
    ensures !Offers(Todo, Done) && !Offers(Done, Todo)
    ensures Offers(a, b) ==> Offers(b, a)
  {
    OffersAdjacentColumns(a, a);
    OffersAdjacentColumns(Todo, Done);
    OffersAdjacentColumns(Done, Todo);
    OffersAdjacentColumns(a, b);
    OffersAdjacentColumns(b, a);
  }

  /** Every status reaches every other in at most two clicks. */
  lemma ReachableInTwo(a: TaskStatus, b: TaskStatus)
    ensures a == b || Offers(a, b) || (Offers(a, InProgress) && Offers(InProgress, b))
  {
    OffersAdjacentColumns(a, b);
    OffersAdjacentColumns(a, InProgress);
    OffersAdjacentColumns(InProgress, b);
  }

  const HighColor: string := "bg-red-100 text-red-800"
  const MediumColor: string := "bg-yellow-100 text-yellow-800"
  const LowColor: string := "bg-green-100 text-green-800"
  const DefaultColor: string := "bg-gray-100 text-gray-800"

  /** `getPriorityColor`: a colour per known priority, gray otherwise. */
  function PriorityColor(priority: string): (r: string)
    ensures r == DefaultColor <==> ParsePriority(priority).None?
  {
    if priority == "high" then HighColor
    else if priority == "medium" then MediumColor
    else if priority == "low" then LowColor
    else DefaultColor
  }

  /** The three priorities get three different colours, so the badge
      tells them apart. */
  lemma PriorityColorsDistinct(p: Priority, q: Priority)
    ensures PriorityColor(PriorityName(p)) == PriorityColor(PriorityName(q)) <==> p == q
  {}
}
