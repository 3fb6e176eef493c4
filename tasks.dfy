/**
 * The task record of app/TaskScreen.tsx and the list transforms its
 * handlers build with spread, `map` and `filter` before storing them.
 */
module Tasks {
  import opened Wrappers
  import Text
  import Seqs

  datatype Priority = Low | Medium | High

  datatype Task = Task(
    id: string,
    title: string,
    completed: bool,
    priority: Priority,
    dueDate: Option<int>,
    calendarEventId: Option<string>)

  function TaskId(t: Task): string { t.id }

  /** No two tasks of the list share an id. */
  ghost predicate UniqueIds(tasks: seq<Task>) {
    forall i, j :: 0 <= i < j < |tasks| ==> tasks[i].id != tasks[j].id
  }

  predicate HasId(tasks: seq<Task>, id: string) {
    exists i :: 0 <= i < |tasks| && tasks[i].id == id
  }

  /** `addTask`: a non-blank input becomes a fresh incomplete medium-priority task in front. */
  function AddTask(tasks: seq<Task>, input: string, id: string): seq<Task> {
    var title := Text.Trim(input);
    if title == [] then tasks
    else [Task(id, title, false, Medium, None, None)] + tasks
  }

  /** `toggleTask`: flip `completed` on the tasks with this id. */
  function ToggleTask(tasks: seq<Task>, id: string): (r: seq<Task>)
    ensures |r| == |tasks|
  {
    seq(|tasks|, i requires 0 <= i < |tasks| =>
      if tasks[i].id == id then tasks[i].(completed := !tasks[i].completed) else tasks[i])
  }

  function IdIsNot(id: string): Task -> bool {
    (t: Task) => t.id != id
  }

  /** `deleteTask` (the confirmed branch): keep the tasks whose id differs. */
  function DeleteTask(tasks: seq<Task>, id: string): seq<Task> {
    Seqs.Filter(tasks, IdIsNot(id))
  }

  /** The calendar link result: record `eventId` on the tasks with this id. */
  function LinkEvent(tasks: seq<Task>, id: string, eventId: string): (r: seq<Task>)
    ensures |r| == |tasks|
  {
    seq(|tasks|, i requires 0 <= i < |tasks| =>
      if tasks[i].id == id then tasks[i].(calendarEventId := Some(eventId)) else tasks[i])
  }

  /**
   * An input that trims to nothing leaves the list as it is (by
   * `Text.TrimEmptyIffBlank`, exactly the whitespace-only inputs); otherwise
   * exactly one task is prepended, titled with the trimmed input (non-empty,
   * no surrounding whitespace), not completed, of medium priority, with no
   * due date and no calendar event, and the earlier tasks follow unchanged.
   */
  lemma AddTaskSpec(tasks: seq<Task>, input: string, id: string)
    ensures Text.Trim(input) == [] ==> AddTask(tasks, input, id) == tasks
    ensures Text.Trim(input) != [] ==>
      var r := AddTask(tasks, input, id);
      && |r| == |tasks| + 1 && r[1..] == tasks
      && r[0] == Task(id, Text.Trim(input), false, Medium, None, None)
      && !Text.IsWhitespace(r[0].title[0])
      && !Text.IsWhitespace(r[0].title[|r[0].title| - 1])
  {
    var title := Text.Trim(input);
    if title != [] {
      Text.TrimEdges(input);
      var r := AddTask(tasks, input, id);
      assert r == [Task(id, title, false, Medium, None, None)] + tasks;
      assert r[1..] == tasks;
    }
  }

  /** Adding under an id no task has keeps ids unique. */
  lemma AddTaskKeepsUniqueIds(tasks: seq<Task>, input: string, id: string)
    requires UniqueIds(tasks) && !HasId(tasks, id)
    ensures UniqueIds(AddTask(tasks, input, id))
  {
    var r := AddTask(tasks, input, id);
    if r != tasks {
      assert r[1..] == tasks;
      forall i, j | 0 <= i < j < |r| ensures r[i].id != r[j].id {
        assert r[j] == tasks[j - 1];
        if i > 0 {
          assert r[i] == tasks[i - 1];
        }
      }
    }
  }

  /**
   * Toggling flips `completed` of exactly the tasks with the id and changes
   * no other field of any task.
   */
  lemma ToggleTaskSpec(tasks: seq<Task>, id: string)
    ensures forall i :: 0 <= i < |tasks| ==>
      var t, u := tasks[i], ToggleTask(tasks, id)[i];
      && u.completed == (if t.id == id then !t.completed else t.completed)
      && u == t.(completed := u.completed)
    ensures !HasId(tasks, id) ==> ToggleTask(tasks, id) == tasks
    ensures UniqueIds(tasks) ==> UniqueIds(ToggleTask(tasks, id))
  {
  }

  /** Toggling the same id twice restores the list. */
  lemma ToggleTaskTwice(tasks: seq<Task>, id: string)
    ensures ToggleTask(ToggleTask(tasks, id), id) == tasks
  {
    var r := ToggleTask(ToggleTask(tasks, id), id);
    assert forall i :: 0 <= i < |tasks| ==> r[i] == tasks[i];
  }

  /**
   * Deleting keeps exactly the tasks with another id, in their original
   * order and multiplicity; an id that is not present leaves the list equal
   * (so of the same length); unique ids stay unique.
   */
  lemma DeleteTaskSpec(tasks: seq<Task>, id: string)
    ensures forall t :: t in DeleteTask(tasks, id) <==> t in tasks && t.id != id
    ensures forall t :: multiset(DeleteTask(tasks, id))[t] == if t.id != id then multiset(tasks)[t] else 0
    ensures Seqs.IsSubsequence(DeleteTask(tasks, id), tasks)
    ensures !HasId(tasks, id) ==> DeleteTask(tasks, id) == tasks && |DeleteTask(tasks, id)| == |tasks|
    ensures UniqueIds(tasks) ==> UniqueIds(DeleteTask(tasks, id))
  {
    var keep := IdIsNot(id);
    assert forall t :: keep(t) == (t.id != id);
    Seqs.FilterIsSubsequence(tasks, keep);
    if !HasId(tasks, id) {
      forall t | t in tasks ensures keep(t) {
        var i :| 0 <= i < |tasks| && tasks[i] == t;
      }
      Seqs.FilterKeepsAll(tasks, keep);
    }
    if UniqueIds(tasks) {
      Seqs.FilterPreservesUniqueBy(tasks, keep, TaskId);
    }
  }

  /**
   * Linking sets `calendarEventId` of exactly the tasks with the id to the
   * new event id (overwriting an earlier one) and changes nothing else; an
   * absent id leaves the list as it is; ids stay unique.
   */
  lemma LinkEventSpec(tasks: seq<Task>, id: string, eventId: string)
    ensures forall i :: 0 <= i < |tasks| ==>
      var t, u := tasks[i], LinkEvent(tasks, id, eventId)[i];
      && u.calendarEventId == (if t.id == id then Some(eventId) else t.calendarEventId)
      && u == t.(calendarEventId := u.calendarEventId)
    ensures !HasId(tasks, id) ==> LinkEvent(tasks, id, eventId) == tasks
    ensures UniqueIds(tasks) ==> UniqueIds(LinkEvent(tasks, id, eventId))
  {
  }
}
