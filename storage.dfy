/**
 * The durable key-value store (AsyncStorage). A stored value is a snapshot
 * of a whole collection; the JSON text in between is not modelled.
 */
module Storage {
  import Notes
  import Tasks

  const NotesKey: string := "notes"
  const TasksKey: string := "tasks"

  /** What `JSON.stringify` of a collection stands for. */
  datatype Snapshot = NoteList(notes: seq<Notes.Note>) | TaskList(tasks: seq<Tasks.Task>)

  class DurableStore {
    var entries: map<string, Snapshot>

    constructor ()
      ensures entries == map[]
    {
      entries := map[];
    }

    /**
     * `setItem(key, value)`. The write may fail (`ok` is false); a failed
     * write leaves every stored value as it was.
     */
    method SetItem(key: string, value: Snapshot) returns (ok: bool)
      modifies this
      ensures ok ==> entries == old(entries)[key := value]
      ensures !ok ==> entries == old(entries)
    {
      ok := *;
      if ok {
        entries := entries[key := value];
      }
    }
  }
}
