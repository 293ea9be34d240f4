/**
  The `/addSchedule` handler as a transition over the two stores. A valid
  request either appends a recurring row, appends a one-time override of
  the user's recurring row in the same weekday and slot, or is refused
  because that override already exists.
 */
module AddSchedule {
  import opened Chars
  import opened Seqs
  import opened ScheduleModel
  import opened GetSchedule

  /**
    The request body after `parseInt` of the weekday and slot: `start`
    and `end` as sent, `date` the `occurrenceDate` of the override.
   */
  datatype Request = Request(day: int, slot: int, start: string, end: string, date: Date)

  datatype Outcome =
    | InvalidInput       // 400 "Invalid input data"
    | OverrideConflict   // 400 "Cannot add regular schedule. Edited occurrence exists for this schedule."
    | CreatedOverride    // "Edited schedule added successfully"
    | CreatedRecurring   // "Regular schedule added successfully"

  datatype Applied = Applied(outcome: Outcome, stores: Stores)

  /** The request passes the handler's basic validations. */
  predicate Valid(req: Request)
  {
    ValidPosition(req.day, req.slot) && ValidTimes(req.start, req.end)
  }

  /** `r` is a recurring row of `user` in weekday `day`, slot `slot`. */
  predicate InSlot(r: Recurring, user: int, day: int, slot: int)
  {
    r.userId == user && r.day == day && r.slot == slot
  }

  function SlotOf(user: int, day: int, slot: int): Recurring -> bool
  {
    (r: Recurring) => InSlot(r, user, day, slot)
  }

  /** No row before position `i` is in the slot. */
  predicate NoneBefore(rows: seq<Recurring>, i: int, user: int, day: int, slot: int)
    requires 0 <= i <= |rows|
  {
    forall j :: 0 <= j < i ==> !InSlot(rows[j], user, day, slot)
  }

  /** The `.first()` lookup of a recurring row in the slot: the earliest stored one, if any. */
  function FindRecurring(rows: seq<Recurring>, user: int, day: int, slot: int): (r: Option<Recurring>)
    ensures r.None? <==> forall x :: x in rows ==> !InSlot(x, user, day, slot)
    ensures r.Some? ==> exists i :: 0 <= i < |rows| && rows[i] == r.value
                          && InSlot(rows[i], user, day, slot) && NoneBefore(rows, i, user, day, slot)
  {
    if |rows| == 0 then None
    else if InSlot(rows[0], user, day, slot) then
      assert NoneBefore(rows, 0, user, day, slot);
      Some(rows[0])
    else
      var r := FindRecurring(rows[1..], user, day, slot);
      assert r.None? ==> forall x :: x in rows ==> !InSlot(x, user, day, slot) by {
        assert rows == [rows[0]] + rows[1..];
      }
      if r.Some? then
        var i :| 0 <= i < |rows[1..]| && rows[1..][i] == r.value
                 && InSlot(rows[1..][i], user, day, slot) && NoneBefore(rows[1..], i, user, day, slot);
        assert NoneBefore(rows, i + 1, user, day, slot) by {
          forall j | 0 <= j < i + 1 ensures !InSlot(rows[j], user, day, slot) {
            if j > 0 {
              assert rows[j] == rows[1..][j - 1];
            }
          }
        }
        r
      else
        r
  }

  /** The `where` of the override lookup: same user, recurring row, weekday, slot and date. */
  function SameOccurrence(user: int, scheduleId: int, req: Request): Override -> bool
  {
    (o: Override) => o.userId == user && o.scheduleId == scheduleId && o.day == req.day
                     && o.slot == req.slot && o.date == req.date
  }

  /** The override the handler inserts for recurring row `m`. */
  function NewOverride(user: int, m: Recurring, req: Request): Override
  {
    Override(user, m.id, req.date, req.day, req.slot, req.start, req.end)
  }

  /** The recurring row the handler inserts; `nextId` is the id the database assigns. */
  function NewRecurring(user: int, req: Request, nextId: int): Recurring
  {
    Recurring(nextId, user, req.day, req.slot, req.start, req.end)
  }

  /**
    Handles one request of `user`. Validation comes first; then the
    earliest recurring row in the requested slot decides: none, or one with
    the same times, appends a recurring row; one with other times appends
    an override for `date`, unless one already exists.
   */
  function Apply(st: Stores, user: int, req: Request, nextId: int): (a: Applied)
    ensures a.outcome == InvalidInput <==> !Valid(req)
    ensures a.outcome == InvalidInput || a.outcome == OverrideConflict <==> a.stores == st
    ensures Valid(req) && (forall r :: r in st.schedules ==> !InSlot(r, user, req.day, req.slot)) ==>
              a.outcome == CreatedRecurring
    ensures var f := FindRecurring(st.schedules, user, req.day, req.slot);
            Valid(req) && (f.None? || (f.value.start == req.start && f.value.end == req.end)) ==>
              a.outcome == CreatedRecurring
    ensures var f := FindRecurring(st.schedules, user, req.day, req.slot);
            Valid(req) && f.Some? && (f.value.start != req.start || f.value.end != req.end) ==>
              a == if exists o :: o in st.edited && SameOccurrence(user, f.value.id, req)(o)
                   then Applied(OverrideConflict, st)
                   else Applied(CreatedOverride, Stores(st.schedules, st.edited + [NewOverride(user, f.value, req)]))
    ensures a.outcome == CreatedRecurring ==>
              a.stores == Stores(st.schedules + [NewRecurring(user, req, nextId)], st.edited)
    ensures a.outcome == CreatedOverride ==>
              exists m :: m in st.schedules && InSlot(m, user, req.day, req.slot)
                && (m.start != req.start || m.end != req.end)
                && (forall o :: o in st.edited ==> !SameOccurrence(user, m.id, req)(o))
                && a.stores == Stores(st.schedules, st.edited + [NewOverride(user, m, req)])
    ensures a.outcome == OverrideConflict ==>
              exists m :: m in st.schedules && InSlot(m, user, req.day, req.slot)
                && (m.start != req.start || m.end != req.end)
                && exists o :: o in st.edited && SameOccurrence(user, m.id, req)(o)
  {
    if !Valid(req) then Applied(InvalidInput, st)
    else
      var found := FindRecurring(st.schedules, user, req.day, req.slot);
      if found.Some? && (found.value.start != req.start || found.value.end != req.end) then
        var m := found.value;
        var existing := Filter(st.edited, SameOccurrence(user, m.id, req));
        if |existing| > 0 then
          assert existing[0] in existing;
          Applied(OverrideConflict, st)
        else
          assert existing == [];
          Applied(CreatedOverride, Stores(st.schedules, st.edited + [NewOverride(user, m, req)]))
      else
        assert |st.schedules + [NewRecurring(user, req, nextId)]| != |st.schedules|;
        Applied(CreatedRecurring, Stores(st.schedules + [NewRecurring(user, req, nextId)], st.edited))
  }

  /**
    A row 09:00-10:00 in Tuesday's slot 0 and a request for 10:00-11:00 in
    that slot: the handler adds an override of that row for the date.
   */
  lemma ChangedTimesCreateOverride(user: int, d: Date)
    ensures var row := Recurring(1, user, 2, 0, "09:00", "10:00");
            var req := Request(2, 0, "10:00", "11:00", d);
            Apply(Stores([row], []), user, req, 2) == Applied(CreatedOverride, Stores([row], [NewOverride(user, row, req)]))
  {
    var req := Request(2, 0, "10:00", "11:00", d);
    ValidIffClockOrder(req);
  }

  /** Under the store invariant, the recurring row with id `id` is unique. */
  lemma RowById(st: Stores, a: Recurring, b: Recurring)
    requires StoreInv(st)
    requires a in st.schedules && b in st.schedules && a.id == b.id
    ensures a == b
  {
    var i :| 0 <= i < |st.schedules| && st.schedules[i] == a;
    var j :| 0 <= j < |st.schedules| && st.schedules[j] == b;
    assert i == j;
  }

  /**
    Under the store invariant, the five-column override lookup finds an
    override exactly when the pair (`schedule_id`, `occurrence_date`) is
    taken: every override of row `m` shares its user, weekday and slot.
   */
  lemma OccurrenceLookupIsUniqueKey(st: Stores, user: int, req: Request, m: Recurring)
    requires StoreInv(st)
    requires m in st.schedules && InSlot(m, user, req.day, req.slot)
    ensures (exists o :: o in st.edited && SameOccurrence(user, m.id, req)(o))
        <==> (exists o :: o in st.edited && o.scheduleId == m.id && o.date == req.date)
  {
    if o :| o in st.edited && o.scheduleId == m.id && o.date == req.date {
      var r :| r in st.schedules && r.id == o.scheduleId && r.userId == o.userId && r.day == o.day && r.slot == o.slot;
      RowById(st, r, m);
      assert SameOccurrence(user, m.id, req)(o);
    }
  }

  /** A conflict is reported exactly when the override's (`schedule_id`, `occurrence_date`) is taken. */
  lemma ConflictIffOccurrenceTaken(st: Stores, user: int, req: Request, nextId: int)
    requires StoreInv(st) && Valid(req)
    requires FindRecurring(st.schedules, user, req.day, req.slot).Some?
    ensures var m := FindRecurring(st.schedules, user, req.day, req.slot).value;
            Apply(st, user, req, nextId).outcome == OverrideConflict <==>
              (m.start != req.start || m.end != req.end)
              && exists o :: o in st.edited && o.scheduleId == m.id && o.date == req.date
  {
    var m := FindRecurring(st.schedules, user, req.day, req.slot).value;
    OccurrenceLookupIsUniqueKey(st, user, req, m);
    var existing := Filter(st.edited, SameOccurrence(user, m.id, req));
    var a := Apply(st, user, req, nextId);
    if m.start != req.start || m.end != req.end {
      if |existing| > 0 {
        assert a.outcome == OverrideConflict;
        assert existing[0] in existing;
      } else {
        assert a.outcome == CreatedOverride;
        assert existing == [];
      }
    } else {
      assert a.outcome == CreatedRecurring;
    }
  }

  /** Appending a valid recurring row with a fresh id keeps the store invariant. */
  lemma InvariantAfterRecurring(st: Stores, x: Recurring)
    requires StoreInv(st)
    requires ValidPosition(x.day, x.slot) && ValidTimes(x.start, x.end)
    requires forall r :: r in st.schedules ==> r.id != x.id
    ensures StoreInv(Stores(st.schedules + [x], st.edited))
  {
    var rows := st.schedules + [x];
    forall i, j | 0 <= i < j < |rows| ensures rows[i].id != rows[j].id {
      if j == |rows| - 1 {
        assert rows[i] in st.schedules;
      } else {
        assert rows[i] == st.schedules[i] && rows[j] == st.schedules[j];
      }
    }
    forall o | o in st.edited ensures References(rows, o) {
      var r :| r in st.schedules && r.id == o.scheduleId && r.userId == o.userId && r.day == o.day && r.slot == o.slot;
      assert r in rows;
    }
  }

  /** Appending a valid override of a stored row, on a date its row has no override for, keeps the store invariant. */
  lemma InvariantAfterOverride(st: Stores, n: Override)
    requires StoreInv(st)
    requires ValidPosition(n.day, n.slot) && ValidTimes(n.start, n.end)
    requires References(st.schedules, n)
    requires forall o :: o in st.edited ==> o.scheduleId != n.scheduleId || o.date != n.date
    ensures StoreInv(Stores(st.schedules, st.edited + [n]))
  {
    var eds := st.edited + [n];
    forall i, j | 0 <= i < j < |eds| ensures eds[i].scheduleId != eds[j].scheduleId || eds[i].date != eds[j].date {
      if j == |eds| - 1 {
        assert eds[i] in st.edited;
      } else {
        assert eds[i] == st.edited[i] && eds[j] == st.edited[j];
      }
    }
  }

  /**
    Apply keeps the store invariant when `nextId` is a fresh id. In
    particular the inserted override never collides with the
    (`schedule_id`, `occurrence_date`) unique constraint.
   */
  lemma ApplyPreservesInvariant(st: Stores, user: int, req: Request, nextId: int)
    requires StoreInv(st)
    requires forall r :: r in st.schedules ==> r.id != nextId
    ensures StoreInv(Apply(st, user, req, nextId).stores)
  {
    var a := Apply(st, user, req, nextId);
    if a.outcome == CreatedRecurring {
      InvariantAfterRecurring(st, NewRecurring(user, req, nextId));
    } else if a.outcome == CreatedOverride {
      var m :| m in st.schedules && InSlot(m, user, req.day, req.slot)
                && (m.start != req.start || m.end != req.end)
                && (forall o :: o in st.edited ==> !SameOccurrence(user, m.id, req)(o))
                && a.stores == Stores(st.schedules, st.edited + [NewOverride(user, m, req)]);
      var n := NewOverride(user, m, req);
      assert References(st.schedules, n);
      OccurrenceLookupIsUniqueKey(st, user, req, m);
      InvariantAfterOverride(st, n);
    }
  }

  /** An override request sent twice is refused the second time, with no store change. */
  lemma RepeatedOverrideConflicts(st: Stores, user: int, req: Request, nextId: int, nextId': int)
    requires Apply(st, user, req, nextId).outcome == CreatedOverride
    ensures var st' := Apply(st, user, req, nextId).stores;
            Apply(st', user, req, nextId') == Applied(OverrideConflict, st')
  {
    var st' := Apply(st, user, req, nextId).stores;
    var m := FindRecurring(st.schedules, user, req.day, req.slot).value;
    assert st'.edited == st.edited + [NewOverride(user, m, req)];
    assert NewOverride(user, m, req) in Filter(st'.edited, SameOccurrence(user, m.id, req));
  }

  /**
    A recurring row appended after the first row of its slot leaves the
    `.first()` lookup of every slot unchanged, or answers it if it was empty.
   */
  lemma FindAfterAppend(rows: seq<Recurring>, x: Recurring, user: int, day: int, slot: int)
    ensures FindRecurring(rows + [x], user, day, slot) ==
              if FindRecurring(rows, user, day, slot).Some? then FindRecurring(rows, user, day, slot)
              else if InSlot(x, user, day, slot) then Some(x)
              else None
    decreases |rows|
  {
    if |rows| == 0 {
      assert rows + [x] == [x];
    } else {
      assert (rows + [x])[1..] == rows[1..] + [x];
      FindAfterAppend(rows[1..], x, user, day, slot);
    }
  }

  /**
    A recurring request sent twice is accepted twice: each time one more
    row of the same slot is stored, so a slot can hold several recurring rows.
   */
  lemma RepeatedRecurringDuplicates(st: Stores, user: int, req: Request, nextId: int, nextId': int)
    requires Apply(st, user, req, nextId).outcome == CreatedRecurring
    ensures var st' := Apply(st, user, req, nextId).stores;
            Apply(st', user, req, nextId').outcome == CreatedRecurring
    ensures var st' := Apply(st, user, req, nextId).stores;
            |Filter(st'.schedules, SlotOf(user, req.day, req.slot))|
              == |Filter(st.schedules, SlotOf(user, req.day, req.slot))| + 1
  {
    var x := NewRecurring(user, req, nextId);
    FindAfterAppend(st.schedules, x, user, req.day, req.slot);
    FilterAppend(st.schedules, [x], SlotOf(user, req.day, req.slot));
  }

  /** The decimal value of the four digits of an `HH:MM` string, read as `HHMM`. */
  function ClockValue(s: string): (n: int)
    requires IsClockTime(s)
    ensures 0 <= n <= 9999
  {
    1000 * Digit(s[0]) + 100 * Digit(s[1]) + 10 * Digit(s[3]) + Digit(s[4])
  }

  function Digit(c: char): (d: int)
    requires IsDigit(c)
    ensures 0 <= d <= 9
  {
    c as int - '0' as int
  }

  /** Two digits are compared by their values. */
  lemma DigitOrder(c: char, d: char)
    requires IsDigit(c) && IsDigit(d)
    ensures c < d <==> Digit(c) < Digit(d)
    ensures c == d <==> Digit(c) == Digit(d)
  {
  }

  /**
    On `HH:MM` strings, the string order used by the `start_time >= end_time`
    check is the numeric order of `HHMM`. Hours and minutes are not
    bounded: "23:59" < "24:00" < "99:99" all pass.
   */
  lemma ClockOrder(a: string, b: string)
    requires IsClockTime(a) && IsClockTime(b)
    ensures StrLess(a, b) <==> ClockValue(a) < ClockValue(b)
  {
    DigitOrder(a[0], b[0]);
    DigitOrder(a[1], b[1]);
    DigitOrder(a[3], b[3]);
    DigitOrder(a[4], b[4]);
    StrLessTail(a, b, 0);
    StrLessTail(a, b, 1);
    StrLessTail(a, b, 2);
    StrLessTail(a, b, 3);
    StrLessTail(a, b, 4);
    assert !StrLess(a[5..], b[5..]);
  }

  /** The validation accepts exactly the in-range positions with two `HH:MM` times, the start numerically earlier. */
  lemma ValidIffClockOrder(req: Request)
    ensures Valid(req) <==>
              && ValidPosition(req.day, req.slot)
              && IsClockTime(req.start) && IsClockTime(req.end)
              && ClockValue(req.start) < ClockValue(req.end)
  {
    if IsClockTime(req.start) && IsClockTime(req.end) {
      ClockOrder(req.start, req.end);
    }
  }

  /** Nothing bounds the hours or the minutes: an end time of "99:99" is accepted. */
  lemma OutOfClockTimeAccepted(d: Date)
    ensures Valid(Request(0, 0, "23:59", "99:99", d))
  {
    ValidIffClockOrder(Request(0, 0, "23:59", "99:99", d));
  }

  /** One step of the string order: compare the characters at `k`, or move past them. */
  lemma StrLessTail(a: string, b: string, k: nat)
    requires k < |a| && k < |b|
    ensures StrLess(a[k..], b[k..]) == if a[k] != b[k] then a[k] < b[k] else StrLess(a[k + 1..], b[k + 1..])
  {
    assert a[k..][1..] == a[k + 1..] && b[k..][1..] == b[k + 1..];
  }

  /**
    After Apply inserts an override, the week view of any range holding
    its date shows the new override once, on its weekday, and no longer
    shows the recurring row it overrides.
   */
  lemma OverrideVisibleAfterApply(st: Stores, user: int, req: Request, nextId: int, lo: Date, hi: Date)
    requires StoreInv(st)
    requires Apply(st, user, req, nextId).outcome == CreatedOverride
    requires lo <= req.date <= hi
    ensures var st' := Apply(st, user, req, nextId).stores;
            var m := FindRecurring(st.schedules, user, req.day, req.slot).value;
            var v := Resolve(st'.schedules, st'.edited, user, Some(lo), Some(hi)).value;
            && multiset(v[DayName(req.day)])[AsEdited(NewOverride(user, m, req))] == 1
            && AsRegular(m) !in v[DayName(m.day)]
  {
    var m := FindRecurring(st.schedules, user, req.day, req.slot).value;
    var n := NewOverride(user, m, req);
    OverrideInserted(st, user, req, nextId);
    ApplyPreservesInvariantOverride(st, user, req, nextId);
    var st' := Stores(st.schedules, st.edited + [n]);
    InvariantShape(st');
    OverrideShownOnce(st'.schedules, st'.edited, user, lo, hi, n);
    assert OverriddenInRange(st'.edited, user, lo, hi, m) by {
      assert n in st'.edited && Selected(n, user, lo, hi);
    }
    RecurringShownUnlessOverridden(st'.schedules, st'.edited, user, lo, hi, m);
  }

  /** What an inserted override is: a new last row for the first recurring row of the slot. */
  lemma OverrideInserted(st: Stores, user: int, req: Request, nextId: int)
    requires Apply(st, user, req, nextId).outcome == CreatedOverride
    ensures FindRecurring(st.schedules, user, req.day, req.slot).Some?
    ensures var m := FindRecurring(st.schedules, user, req.day, req.slot).value;
            && m in st.schedules && InSlot(m, user, req.day, req.slot)
            && Apply(st, user, req, nextId).stores == Stores(st.schedules, st.edited + [NewOverride(user, m, req)])
  {
  }

  /** The store invariant gives the facts the week view relies on. */
  lemma InvariantShape(st: Stores)
    requires StoreInv(st)
    ensures StoredWeekdays(st.schedules, st.edited) && UniqueOccurrences(st.edited)
  {
  }

  /** `ApplyPreservesInvariant` for an inserted override, which needs no fresh id. */
  lemma ApplyPreservesInvariantOverride(st: Stores, user: int, req: Request, nextId: int)
    requires StoreInv(st)
    requires Apply(st, user, req, nextId).outcome == CreatedOverride
    ensures StoreInv(Apply(st, user, req, nextId).stores)
  {
    var unused := MaxId(st.schedules) + 1;
    ApplyPreservesInvariant(st, user, req, unused);
    assert Apply(st, user, req, nextId).stores == Apply(st, user, req, unused).stores;
  }

  /** The greatest id in use, or 0 when there is none. */
  function MaxId(rows: seq<Recurring>): (n: int)
    ensures forall r :: r in rows ==> r.id <= n
  {
    if |rows| == 0 then 0
    else
      var rest := MaxId(rows[1..]);
      assert forall r :: r in rows ==> r == rows[0] || r in rows[1..];
      if rows[0].id > rest then rows[0].id else rest
  }
}
