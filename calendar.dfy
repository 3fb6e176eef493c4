/**
 * The event that `saveEventToCalendar` (app/TaskScreen.tsx) hands to the
 * calendar: a start built from a picked date and a picked time of day, one
 * hour long, with an alarm 30 minutes before. Times are milliseconds since
 * the epoch; the local time zone is taken to be UTC, so `getHours`,
 * `setHours` and friends are plain arithmetic (Dafny's `/` and `%` by a
 * positive constant round down, as JavaScript's date fields do for times
 * before the epoch).
 */
module CalendarEvent {

  const MsPerMinute: int := 60000
  const MsPerHour: int := 3600000
  const MsPerDay: int := 86400000
  /** The event lasts one hour. */
  const DurationMs: int := 3600000
  /** The alarm fires 30 minutes before the start. */
  const AlarmOffset: int := -30
  const EventNotes: string := "Task from Notes App"

  /** The day number of an instant. */
  function Day(t: int): int { t / MsPerDay }
  /** `getHours()` */
  function Hours(t: int): int { (t / MsPerHour) % 24 }
  /** `getMinutes()` */
  function Minutes(t: int): int { (t / MsPerMinute) % 60 }
  /** Seconds and milliseconds below the minute. */
  function SubMinute(t: int): int { t % MsPerMinute }

  /** `setHours(h)` as the instant it produces (other fields kept). */
  function SetHours(t: int, h: int): int { t + (h - Hours(t)) * MsPerHour }
  /** `setMinutes(m)` as the instant it produces (other fields kept). */
  function SetMinutes(t: int, m: int): int { t + (m - Minutes(t)) * MsPerMinute }

  /** Every instant is its day, hour, minute and sub-minute part put together. */
  lemma Decompose(t: int)
    ensures 0 <= Hours(t) < 24 && 0 <= Minutes(t) < 60 && 0 <= SubMinute(t) < MsPerMinute
    ensures t == Day(t) * MsPerDay + Hours(t) * MsPerHour + Minutes(t) * MsPerMinute + SubMinute(t)
  {
    var mins := t / MsPerMinute;
    assert t == mins * MsPerMinute + SubMinute(t);
    var hrs := mins / 60;
    assert mins == hrs * 60 + Minutes(t);
    assert hrs == t / MsPerHour;
    assert hrs == (hrs / 24) * 24 + Hours(t);
    assert hrs / 24 == Day(t);
  }

  /** An instant put together from in-range parts has exactly those parts. */
  lemma Compose(d: int, h: int, m: int, r: int)
    requires 0 <= h < 24 && 0 <= m < 60 && 0 <= r < MsPerMinute
    ensures var t := d * MsPerDay + h * MsPerHour + m * MsPerMinute + r;
      Day(t) == d && Hours(t) == h && Minutes(t) == m && SubMinute(t) == r
  {
    var t := d * MsPerDay + h * MsPerHour + m * MsPerMinute + r;
    var mins := d * 1440 + h * 60 + m;
    assert t == mins * MsPerMinute + r;
    assert t / MsPerMinute == mins && t % MsPerMinute == r;
    var hrs := d * 24 + h;
    assert mins == hrs * 60 + m;
    assert mins / 60 == hrs && mins % 60 == m;
    assert t / MsPerHour == hrs;
    assert hrs / 24 == d && hrs % 24 == h;
  }

  /** `setHours(time.getHours())` then `setMinutes(time.getMinutes())` on a copy of `date`. */
  function EventStart(date: int, time: int): int {
    SetMinutes(SetHours(date, Hours(time)), Minutes(time))
  }

  /**
   * The start lies on the picked date's day, at the picked time's hour and
   * minute, and keeps the date's seconds and milliseconds.
   */
  lemma EventStartSpec(date: int, time: int)
    ensures Day(EventStart(date, time)) == Day(date)
    ensures Hours(EventStart(date, time)) == Hours(time)
    ensures Minutes(EventStart(date, time)) == Minutes(time)
    ensures SubMinute(EventStart(date, time)) == SubMinute(date)
  {
    Decompose(date);
    Decompose(time);
    var t1 := SetHours(date, Hours(time));
    assert t1 == Day(date) * MsPerDay + Hours(time) * MsPerHour + Minutes(date) * MsPerMinute + SubMinute(date);
    Compose(Day(date), Hours(time), Minutes(date), SubMinute(date));
    var t2 := SetMinutes(t1, Minutes(time));
    assert t2 == Day(date) * MsPerDay + Hours(time) * MsPerHour + Minutes(time) * MsPerMinute + SubMinute(date);
    Compose(Day(date), Hours(time), Minutes(time), SubMinute(date));
  }

  datatype AlarmMethod = Alert
  datatype Alarm = Alarm(relativeOffset: int, alarmMethod: AlarmMethod)

  /** The `eventDetails` object. */
  datatype EventDetails = EventDetails(
    title: string,
    startDate: int,
    endDate: int,
    timeZone: string,
    allDay: bool,
    location: string,
    notes: string,
    alarms: seq<Alarm>)

  /** The details for a task titled `title`, on `date` at the time of day of `time`. */
  function EventFor(title: string, date: int, time: int): EventDetails {
    var start := EventStart(date, time);
    EventDetails(title, start, start + DurationMs, "UTC", false, "", EventNotes, [Alarm(AlarmOffset, Alert)])
  }

  /**
   * The event carries the task's title, starts on the date's day at the
   * time's hour and minute, ends one hour (3,600,000 ms) later, is not all
   * day, and has exactly one alert 30 minutes before the start.
   */
  lemma EventForSpec(title: string, date: int, time: int)
    ensures var e := EventFor(title, date, time);
      && e.title == title
      && Day(e.startDate) == Day(date) && Hours(e.startDate) == Hours(time) && Minutes(e.startDate) == Minutes(time)
      && e.endDate - e.startDate == 3600000
      && !e.allDay && e.notes == "Task from Notes App"
      && e.alarms == [Alarm(-30, Alert)]
  {
    EventStartSpec(date, time);
  }

  /**
   * Building the start from an earlier time reading instead of the one just
   * picked puts the event at the earlier reading's hour and minute, so it
   * misses the picked time whenever the two differ on the clock face.
   */
  lemma EarlierTimeMissesPick(date: int, earlier: int, picked: int)
    requires Hours(earlier) != Hours(picked) || Minutes(earlier) != Minutes(picked)
    ensures Hours(EventStart(date, earlier)) != Hours(picked) || Minutes(EventStart(date, earlier)) != Minutes(picked)
  {
    EventStartSpec(date, earlier);
  }

  /**
   * For instance, on any date: with midnight as the earlier reading and 10:30
   * picked, the event starts at hour 0 instead of hour 10.
   */
  lemma MidnightInsteadOfHalfPastTen(date: int)
    ensures Hours(37800000) == 10 && Minutes(37800000) == 30
    ensures Hours(EventStart(date, 0)) == 0
  {
    EventStartSpec(date, 0);
  }
}
