/**
  The records the scheduler works on: rows of the `schedules` table
  (weekly-recurring slots), rows of the `edited_schedules` table (one-time
  overrides), the entries of the weekly view built from them, the weekday
  naming, the `HH:MM` time format, and the invariants the stores keep.
 */
module ScheduleModel {
  import opened Chars

  datatype Option<T> = None | Some(value: T)

  datatype Result<T, E> = Success(value: T) | Failure(error: E)

  /** A calendar day, as an ordinal: days compare the way their `YYYY-MM-DD` forms do. */
  type Date = int

  /** A row of `schedules`: the weekly slot `slot` (0 or 1) of weekday `day` (0 = Sunday). */
  datatype Recurring = Recurring(id: int, userId: int, day: int, slot: int, start: string, end: string)

  /** A row of `edited_schedules`: new times for recurring row `scheduleId` on the single day `date`. */
  datatype Override = Override(userId: int, scheduleId: int, date: Date, day: int, slot: int, start: string, end: string)

  /**
    An entry of the weekly view. Recurring rows are read with their `id`;
    override rows are read WITHOUT theirs, so an `Edited` entry has no id.
   */
  datatype Entry =
    | Regular(id: int, day: int, slot: int, start: string, end: string)
    | Edited(scheduleId: int, date: Date, day: int, slot: int, start: string, end: string)
  {
    /** The `id` property of the row object; `None` stands for `undefined`. */
    function Id(): Option<int>
    {
      if Regular? then Some(id) else None
    }
  }

  type EditedEntry = e: Entry | e.Edited? witness Edited(0, 0, 0, 0, "", "")

  /** The columns the view reads from a recurring row. */
  function AsRegular(r: Recurring): Entry
  {
    Regular(r.id, r.day, r.slot, r.start, r.end)
  }

  /** The columns the view reads from an override row. */
  function AsEdited(o: Override): EditedEntry
  {
    Edited(o.scheduleId, o.date, o.day, o.slot, o.start, o.end)
  }

  /** Weekday names, lower-cased, indexed from Sunday = 0. */
  const WeekdayNames: seq<string> :=
    ["sunday", "monday", "tuesday", "wednesday", "thursday", "friday", "saturday"]

  /** Setting the weekday of a date to `d` lands on weekday `d` modulo 7, counted from Sunday. */
  function DayIndex(d: int): (w: int)
    ensures 0 <= w < 7
    ensures 0 <= d < 7 ==> w == d
  {
    d % 7
  }

  /** The name of the weekday a `day_of_week` value falls on. */
  function DayName(d: int): string
  {
    WeekdayNames[DayIndex(d)]
  }

  /** The pattern `^\d{2}:\d{2}$`: two digits, a colon, two digits, and nothing else. */
  predicate IsClockTime(s: string)
  {
    |s| == 5 && IsDigit(s[0]) && IsDigit(s[1]) && s[2] == ':' && IsDigit(s[3]) && IsDigit(s[4])
  }

  /** String `<`: lexicographic by character, a proper prefix being smaller. */
  predicate StrLess(a: string, b: string)
  {
    if |b| == 0 then false
    else if |a| == 0 then true
    else if a[0] != b[0] then a[0] < b[0]
    else StrLess(a[1..], b[1..])
  }

  /** The two stores the scheduler reads and writes. */
  datatype Stores = Stores(schedules: seq<Recurring>, edited: seq<Override>)

  /** A `day_of_week` value naming a weekday, 0 (Sunday) to 6 (Saturday). */
  predicate IsWeekday(day: int)
  {
    0 <= day <= 6
  }

  /** A slot position the schema and the request validation allow. */
  predicate ValidPosition(day: int, slot: int)
  {
    IsWeekday(day) && 0 <= slot <= 1
  }

  predicate ValidTimes(start: string, end: string)
  {
    IsClockTime(start) && IsClockTime(end) && StrLess(start, end)
  }

  /** `o` refers to a recurring row of the same user, weekday and slot. */
  predicate References(schedules: seq<Recurring>, o: Override)
  {
    exists r :: r in schedules && r.id == o.scheduleId && r.userId == o.userId && r.day == o.day && r.slot == o.slot
  }

  /** No two override rows share both `schedule_id` and `occurrence_date`. */
  predicate UniqueOccurrences(ovs: seq<Override>)
  {
    forall i, j :: 0 <= i < j < |ovs| ==> ovs[i].scheduleId != ovs[j].scheduleId || ovs[i].date != ovs[j].date
  }

  /**
    What the stores keep: the slot range of the schema, the validated
    weekday and times of every row, the primary key of `schedules`, the
    uniqueness of (`schedule_id`, `occurrence_date`), and overrides that
    point at a recurring row with their own weekday and slot.
   */
  ghost predicate StoreInv(st: Stores)
  {
    && (forall r :: r in st.schedules ==> ValidPosition(r.day, r.slot) && ValidTimes(r.start, r.end))
    && (forall o :: o in st.edited ==> ValidPosition(o.day, o.slot) && ValidTimes(o.start, o.end))
    && (forall i, j :: 0 <= i < j < |st.schedules| ==> st.schedules[i].id != st.schedules[j].id)
    && UniqueOccurrences(st.edited)
    && (forall o :: o in st.edited ==> References(st.schedules, o))
  }
}
