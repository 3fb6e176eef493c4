/**
 * The task screen (app/TaskScreen.tsx): the task list, persisted whole
 * under the key `tasks` after every change, and the calendar link
 * workflow: pick a task, a calendar, a date, a time, then create the event
 * and record its id on the task. The calendar service's answer to
 * `createEventAsync` is supplied as `created`; ids are supplied as
 * `freshId`.
 */
module TaskScreen {
  import opened Wrappers
  import opened Tasks
  import opened CalendarEvent
  import Text
  import Storage

  datatype Calendar = Calendar(id: string, title: string)

  /** What is sent to `createEventAsync`. */
  datatype EventRequest = EventRequest(calendarId: string, details: EventDetails)

  /** The two ways `createEventAsync` can settle. */
  datatype EventResult = Created(eventId: string) | Failed

  /** Which dialog of the workflow is showing. */
  datatype Phase = Idle | ChoosingCalendar | ChoosingDate | ChoosingTime

  class TaskScreen {
    var tasks: seq<Task>
    var newTaskTitle: string
    var selectedCalendar: Option<Calendar>
    var showCalendarModal: bool
    var taskToAdd: Option<Task>
    var showDatePicker: bool
    var showTimePicker: bool
    var selectedDate: int
    var selectedTime: int
    const storage: Storage.DurableStore

    ghost predicate Valid()
      reads this
    {
      UniqueIds(tasks)
    }

    /** The dialog on screen; the calendar modal is drawn over the pickers. */
    function Phase(): Phase
      reads this
    {
      if showCalendarModal then ChoosingCalendar
      else if showDatePicker then ChoosingDate
      else if showTimePicker then ChoosingTime
      else Idle
    }

    /** At most one of the calendar list, the date picker and the time picker is open. */
    predicate OneDialog()
      reads this
    {
      !(showCalendarModal && showDatePicker) && !(showCalendarModal && showTimePicker)
      && !(showDatePicker && showTimePicker)
    }

    /**
     * The screen as mounted: each picker starts at its own `new Date()`
     * reading, `dateNow` for the date and `timeNow` for the time.
     */
    constructor (storage: Storage.DurableStore, dateNow: int, timeNow: int)
      ensures Valid() && Phase() == Idle && OneDialog()
      ensures tasks == [] && newTaskTitle == "" && selectedCalendar == None && taskToAdd == None
      ensures selectedDate == dateNow && selectedTime == timeNow
      ensures this.storage == storage
    {
      tasks := [];
      newTaskTitle := "";
      selectedCalendar := None;
      showCalendarModal := false;
      taskToAdd := None;
      showDatePicker := false;
      showTimePicker := false;
      selectedDate := dateNow;
      selectedTime := timeNow;
      this.storage := storage;
    }

    /** `saveTasks(updatedTasks)`: exactly the given list under `tasks`. */
    method SaveTasks(updatedTasks: seq<Task>) returns (saved: bool)
      modifies storage
      ensures saved ==> storage.entries == old(storage.entries)[Storage.TasksKey := Storage.TaskList(updatedTasks)]
      ensures !saved ==> storage.entries == old(storage.entries)
    {
      saved := storage.SetItem(Storage.TasksKey, Storage.TaskList(updatedTasks));
    }

    /** `addTask`, reading the input field. A blank input changes nothing and writes nothing. */
    method AddTask(freshId: string) returns (saved: bool)
      requires Valid() && !HasId(tasks, freshId)
      modifies this`tasks, this`newTaskTitle, storage
      ensures Valid()
      ensures tasks == Tasks.AddTask(old(tasks), old(newTaskTitle), freshId)
      ensures Text.AllWhitespace(old(newTaskTitle)) ==>
        newTaskTitle == old(newTaskTitle) && !saved && storage.entries == old(storage.entries)
      ensures !Text.AllWhitespace(old(newTaskTitle)) ==> newTaskTitle == ""
      ensures !Text.AllWhitespace(old(newTaskTitle)) && saved ==>
        storage.entries == old(storage.entries)[Storage.TasksKey := Storage.TaskList(tasks)]
      ensures !saved ==> storage.entries == old(storage.entries)
    {
      AddTaskSpec(tasks, newTaskTitle, freshId);
      AddTaskKeepsUniqueIds(tasks, newTaskTitle, freshId);
      Text.TrimEmptyIffBlank(newTaskTitle);
      var title := Text.Trim(newTaskTitle);
      if title != [] {
        var updatedTasks := [Task(freshId, title, false, Medium, None, None)] + tasks;
        tasks := updatedTasks;
        saved := SaveTasks(updatedTasks);
        newTaskTitle := "";
      } else {
        saved := false;
      }
    }

    /** `toggleTask` */
    method ToggleTask(id: string) returns (saved: bool)
      requires Valid()
      modifies this`tasks, storage
      ensures Valid()
      ensures tasks == Tasks.ToggleTask(old(tasks), id)
      ensures saved ==> storage.entries == old(storage.entries)[Storage.TasksKey := Storage.TaskList(tasks)]
      ensures !saved ==> storage.entries == old(storage.entries)
    {
      ToggleTaskSpec(tasks, id);
      var updatedTasks := Tasks.ToggleTask(tasks, id);
      tasks := updatedTasks;
      saved := SaveTasks(updatedTasks);
    }

    /** `deleteTask`, confirmed. */
    method DeleteTask(id: string) returns (saved: bool)
      requires Valid()
      modifies this`tasks, storage
      ensures Valid()
      ensures tasks == Tasks.DeleteTask(old(tasks), id)
      ensures saved ==> storage.entries == old(storage.entries)[Storage.TasksKey := Storage.TaskList(tasks)]
      ensures !saved ==> storage.entries == old(storage.entries)
    {
      DeleteTaskSpec(tasks, id);
      var updatedTasks := Tasks.DeleteTask(tasks, id);
      tasks := updatedTasks;
      saved := SaveTasks(updatedTasks);
    }

    /** `addToCalendar(task)`: remember the task and open the calendar list. */
    method AddToCalendar(task: Task)
      modifies this`taskToAdd, this`showCalendarModal
      ensures taskToAdd == Some(task) && showCalendarModal && Phase() == ChoosingCalendar
    {
      taskToAdd := Some(task);
      showCalendarModal := true;
    }

    /** Dismissing the calendar list: only the modal closes; the remembered task stays. */
    method CloseCalendarModal()
      modifies this`showCalendarModal
      ensures !showCalendarModal
    {
      showCalendarModal := false;
    }

    /** `handleCalendarSelect`: remember the calendar, close the list, open the date picker. */
    method HandleCalendarSelect(calendar: Calendar)
      modifies this`selectedCalendar, this`showCalendarModal, this`showDatePicker
      ensures selectedCalendar == Some(calendar) && !showCalendarModal && showDatePicker
      ensures Phase() == ChoosingDate
      ensures old(Phase()) == ChoosingCalendar && old(OneDialog()) ==> OneDialog()
    {
      selectedCalendar := Some(calendar);
      showCalendarModal := false;
      showDatePicker := true;
    }

    /**
     * `handleDateChange`: the picker closes; a delivered date is kept and
     * opens the time picker, a dismissal opens nothing.
     */
    method HandleDateChange(date: Option<int>)
      modifies this`showDatePicker, this`selectedDate, this`showTimePicker
      ensures !showDatePicker
      ensures selectedDate == (if date.Some? then date.value else old(selectedDate))
      ensures showTimePicker == (if date.Some? then true else old(showTimePicker))
      ensures old(Phase()) == ChoosingDate && old(OneDialog()) ==>
        OneDialog() && Phase() == (if date.Some? then ChoosingTime else Idle)
    {
      showDatePicker := false;
      if date.Some? {
        selectedDate := date.value;
        showTimePicker := true;
      }
    }

    /**
     * `saveEventToCalendar`. Without both a remembered task and a calendar it
     * does nothing. Otherwise it requests an event for that task at
     * `selectedDate` with the hour and minute of `selectedTime`, and on
     * success records the returned id on the tasks with the remembered id
     * and persists the list; on failure nothing changes.
     */
    method SaveEventToCalendar(created: EventResult) returns (request: Option<EventRequest>, saved: bool)
      requires Valid()
      modifies this`tasks, storage
      ensures Valid()
      ensures request == if taskToAdd.Some? && selectedCalendar.Some?
        then Some(EventRequest(selectedCalendar.value.id, EventFor(taskToAdd.value.title, selectedDate, selectedTime)))
        else None
      ensures tasks == if request.Some? && created.Created?
        then LinkEvent(old(tasks), taskToAdd.value.id, created.eventId)
        else old(tasks)
      ensures request.Some? && created.Created? && saved ==>
        storage.entries == old(storage.entries)[Storage.TasksKey := Storage.TaskList(tasks)]
      ensures !saved ==> storage.entries == old(storage.entries)
      ensures !(request.Some? && created.Created?) ==> !saved
    {
      request, saved := None, false;
      if taskToAdd.Some? && selectedCalendar.Some? {
        var task, calendar := taskToAdd.value, selectedCalendar.value;
        var startDate := selectedDate;
        startDate := SetHours(startDate, Hours(selectedTime));
        startDate := SetMinutes(startDate, Minutes(selectedTime));
        var endDate := startDate + DurationMs;
        var details := EventDetails(task.title, startDate, endDate, "UTC", false, "",
                                    EventNotes, [Alarm(AlarmOffset, Alert)]);
        request := Some(EventRequest(calendar.id, details));
        match created
        case Created(eventId) =>
          LinkEventSpec(tasks, task.id, eventId);
          var updatedTasks := LinkEvent(tasks, task.id, eventId);
          tasks := updatedTasks;
          saved := SaveTasks(updatedTasks);
        case Failed =>
      }
    }

    /**
     * `handleTimeChange`: the picker closes; a delivered time is stored and
     * the event is saved. React applies `setSelectedTime` only after the
     * handler returns, so the save still reads the previous `selectedTime`.
     * A dismissal saves nothing.
     */
    method HandleTimeChange(time: Option<int>, created: EventResult) returns (request: Option<EventRequest>, saved: bool)
      requires Valid()
      modifies this`showTimePicker, this`selectedTime, this`tasks, storage
      ensures Valid() && !showTimePicker
      ensures old(Phase()) == ChoosingTime && old(OneDialog()) ==> Phase() == Idle
      ensures selectedTime == (if time.Some? then time.value else old(selectedTime))
      ensures request == if time.Some? && taskToAdd.Some? && selectedCalendar.Some?
        then Some(EventRequest(selectedCalendar.value.id, EventFor(taskToAdd.value.title, selectedDate, old(selectedTime))))
        else None
      ensures tasks == if request.Some? && created.Created?
        then LinkEvent(old(tasks), taskToAdd.value.id, created.eventId)
        else old(tasks)
      ensures request.Some? && created.Created? && saved ==>
        storage.entries == old(storage.entries)[Storage.TasksKey := Storage.TaskList(tasks)]
      ensures !saved ==> storage.entries == old(storage.entries)
      ensures !(request.Some? && created.Created?) ==> !saved
    {
      showTimePicker := false;
      request, saved := None, false;
      if time.Some? {
        request, saved := SaveEventToCalendar(created);
        selectedTime := time.value;
      }
    }

    /**
     * `handleTimeChange` as evidently intended: the event is built from the
     * time just picked, so it starts at the picked hour and minute.
     */
    method HandleTimeChangeWithPickedTime(time: Option<int>, created: EventResult) returns (request: Option<EventRequest>, saved: bool)
      requires Valid()
      modifies this`showTimePicker, this`selectedTime, this`tasks, storage
      ensures Valid() && !showTimePicker
      ensures old(Phase()) == ChoosingTime && old(OneDialog()) ==> Phase() == Idle
      ensures selectedTime == (if time.Some? then time.value else old(selectedTime))
      ensures request == if time.Some? && taskToAdd.Some? && selectedCalendar.Some?
        then Some(EventRequest(selectedCalendar.value.id, EventFor(taskToAdd.value.title, selectedDate, time.value)))
        else None
      ensures request.Some? ==>
        Hours(request.value.details.startDate) == Hours(time.value)
        && Minutes(request.value.details.startDate) == Minutes(time.value)
        && Day(request.value.details.startDate) == Day(selectedDate)
      ensures tasks == if request.Some? && created.Created?
        then LinkEvent(old(tasks), taskToAdd.value.id, created.eventId)
        else old(tasks)
      ensures request.Some? && created.Created? && saved ==>
        storage.entries == old(storage.entries)[Storage.TasksKey := Storage.TaskList(tasks)]
      ensures !saved ==> storage.entries == old(storage.entries)
      ensures !(request.Some? && created.Created?) ==> !saved
    {
      showTimePicker := false;
      request, saved := None, false;
      if time.Some? {
        selectedTime := time.value;
        request, saved := SaveEventToCalendar(created);
        if request.Some? {
          EventForSpec(taskToAdd.value.title, selectedDate, selectedTime);
        }
      }
    }
  }
}
