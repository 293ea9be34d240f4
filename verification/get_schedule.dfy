/**
  The `/getSchedule` handler: the weekly view of one user over a date
  range, built from the user's recurring rows and the overrides dated in
  the range.
 */
module GetSchedule {
  import opened Seqs
  import opened StableSort
  import opened ScheduleModel

  datatype RangeError = InvalidDateFormat | EndBeforeStart

  /** The seven weekday buckets, indexed by `DayIndex` (Sunday = 0). */
  type Buckets = b: seq<seq<Entry>> | |b| == 7 witness [[], [], [], [], [], [], []]

  /** The weekly view: weekday name to the entries shown on that weekday. */
  type View = map<string, seq<Entry>>

  const WeekdaySet: set<string> :=
    {"monday", "tuesday", "wednesday", "thursday", "friday", "saturday", "sunday"}

  // ----- Reading the stores -----

  /** The user's recurring rows, as the view reads them. */
  function RegularRows(rec: seq<Recurring>, user: int): (r: seq<Entry>)
    ensures |r| <= |rec|
    ensures forall e :: e in r <==> exists x :: x in rec && x.userId == user && e == AsRegular(x)
  {
    if |rec| == 0 then []
    else (if rec[0].userId == user then [AsRegular(rec[0])] else []) + RegularRows(rec[1..], user)
  }

  /** An override row the range query returns. */
  predicate Selected(o: Override, user: int, lo: Date, hi: Date)
  {
    o.userId == user && lo <= o.date <= hi
  }

  /** The user's override rows dated in [lo, hi], as the view reads them. */
  function EditedRows(ovs: seq<Override>, user: int, lo: Date, hi: Date): (r: seq<EditedEntry>)
    ensures |r| <= |ovs|
    ensures forall e :: e in r <==> exists o :: o in ovs && Selected(o, user, lo, hi) && e == AsEdited(o)
  {
    if |ovs| == 0 then []
    else (if Selected(ovs[0], user, lo, hi) then [AsEdited(ovs[0])] else []) + EditedRows(ovs[1..], user, lo, hi)
  }

  // ----- Sort keys of the three comparators -----

  /** Recurring rows: by weekday, then slot. */
  function DaySlotKey(e: Entry): Key
  {
    Key(e.day, e.slot)
  }

  /** Override rows: by date, then slot. */
  function DateSlotKey(e: EditedEntry): Key
  {
    Key(e.date, e.slot)
  }

  /** A bucket after an overlay: by slot alone. */
  function SlotKey(e: Entry): Key
  {
    Key(e.slot, 0)
  }

  // ----- Placing recurring rows -----

  /** Selects the entries whose weekday is `w`. */
  function OnDay(w: int): Entry -> bool
  {
    (e: Entry) => DayIndex(e.day) == w
  }

  /** Appends each entry of `s`, in order, to the bucket of its weekday. */
  function PlaceFrom(b: Buckets, s: seq<Entry>): (r: Buckets)
    ensures forall w :: 0 <= w < 7 ==> r[w] == b[w] + Filter(s, OnDay(w))
    decreases |s|
  {
    if |s| == 0 then b
    else
      var d := DayIndex(s[0].day);
      var b' := b[d := b[d] + [s[0]]];
      PlaceStep(b, s, b');
      PlaceFrom(b', s[1..])
  }

  lemma PlaceStep(b: Buckets, s: seq<Entry>, b': Buckets)
    requires |s| > 0 && b' == b[DayIndex(s[0].day) := b[DayIndex(s[0].day)] + [s[0]]]
    ensures forall w :: 0 <= w < 7 ==> b'[w] + Filter(s[1..], OnDay(w)) == b[w] + Filter(s, OnDay(w))
  {
    var d := DayIndex(s[0].day);
    forall w | 0 <= w < 7 ensures b'[w] + Filter(s[1..], OnDay(w)) == b[w] + Filter(s, OnDay(w)) {
      if w == d {
        PlaceStepSame(b, s, d);
      } else {
        PlaceStepOther(b, s, d, w);
      }
    }
  }

  lemma PlaceStepSame(b: seq<seq<Entry>>, s: seq<Entry>, d: int)
    requires |s| > 0 && |b| == 7 && d == DayIndex(s[0].day)
    ensures b[d := b[d] + [s[0]]][d] + Filter(s[1..], OnDay(d)) == b[d] + Filter(s, OnDay(d))
  {
    FilterHead(s, OnDay(d));
    AppendAt(b, d, s[0], Filter(s[1..], OnDay(d)));
  }

  /** A filter whose predicate holds of the head keeps it in front. */
  lemma FilterHead(s: seq<Entry>, p: Entry -> bool)
    requires |s| > 0 && p(s[0])
    ensures Filter(s, p) == [s[0]] + Filter(s[1..], p)
  {
  }

  /** Appending `x` to row `d` and then `t` to that row is appending `[x] + t` to the row. */
  lemma AppendAt(b: seq<seq<Entry>>, d: int, x: Entry, t: seq<Entry>)
    requires 0 <= d < |b|
    ensures b[d := b[d] + [x]][d] + t == b[d] + ([x] + t)
  {
  }

  lemma PlaceStepOther(b: seq<seq<Entry>>, s: seq<Entry>, d: int, w: int)
    requires |s| > 0 && |b| == 7 && d == DayIndex(s[0].day)
    requires 0 <= w < 7 && w != d
    ensures b[d := b[d] + [s[0]]][w] + Filter(s[1..], OnDay(w)) == b[w] + Filter(s, OnDay(w))
  {
    assert Filter(s, OnDay(w)) == Filter(s[1..], OnDay(w));
  }

  /** Every entry goes to the bucket named for its weekday, in the order given. */
  function Place(s: seq<Entry>): (r: Buckets)
    ensures forall w :: 0 <= w < 7 ==> r[w] == Filter(s, OnDay(w))
  {
    var empty: Buckets := [[], [], [], [], [], [], []];
    PlaceFrom(empty, s)
  }

  // ----- Overlaying one override -----

  /** The guard: some entry of the bucket has the override's weekday and slot. */
  predicate Guard(bucket: seq<Entry>, ed: EditedEntry)
  {
    exists e :: e in bucket && e.day == ed.day && e.slot == ed.slot
  }

  /** The filter's test: the entry's id is the override's `schedule_id` and the slots agree. */
  predicate Matches(ed: EditedEntry, e: Entry)
  {
    e.Id() == Some(ed.scheduleId) && e.slot == ed.slot
  }

  function Unmatched(ed: EditedEntry): Entry -> bool
  {
    (e: Entry) => !Matches(ed, e)
  }

  /** Removes the entries the override replaces, when the guard lets the filter run. */
  function Supersede(bucket: seq<Entry>, ed: EditedEntry): seq<Entry>
  {
    if Guard(bucket, ed) then Filter(bucket, Unmatched(ed)) else bucket
  }

  /** One overlay step on a bucket: supersede, append the override, re-sort by slot. */
  function Overlay(bucket: seq<Entry>, ed: EditedEntry): (r: seq<Entry>)
    ensures SortedBy(r, SlotKey)
    ensures multiset(r) == multiset(Supersede(bucket, ed)) + multiset{ed}
  {
    SortBy(Supersede(bucket, ed) + [ed], SlotKey)
  }

  /** The re-sort after an overlay is stable: entries of one slot keep their order, the override after the kept ones. */
  lemma OverlayStable(bucket: seq<Entry>, ed: EditedEntry)
    ensures SameOrderPerKey(Overlay(bucket, ed), Supersede(bucket, ed) + [ed], SlotKey)
  {
    SortByStable(Supersede(bucket, ed) + [ed], SlotKey);
  }

  /** Overlays one override on the bucket of its own `day_of_week`; the other buckets stay as they are. */
  function OverlayOne(b: Buckets, ed: EditedEntry): (r: Buckets)
    ensures r[DayIndex(ed.day)] == Overlay(b[DayIndex(ed.day)], ed)
    ensures forall w :: 0 <= w < 7 && w != DayIndex(ed.day) ==> r[w] == b[w]
  {
    var d := DayIndex(ed.day);
    b[d := Overlay(b[d], ed)]
  }

  /** Overlays the overrides one after another, in the order given. */
  function OverlayAll(b: Buckets, eds: seq<EditedEntry>): (r: Buckets)
    ensures (forall w :: 0 <= w < 7 ==> SortedBy(b[w], SlotKey)) ==> forall w :: 0 <= w < 7 ==> SortedBy(r[w], SlotKey)
    ensures forall w :: 0 <= w < 7 && (forall e :: e in eds ==> DayIndex(e.day) != w) ==> r[w] == b[w]
    decreases |eds|
  {
    if |eds| == 0 then b
    else
      assert eds[0] in eds;
      OverlayAll(OverlayOne(b, eds[0]), eds[1..])
  }

  /** The buckets under their weekday names. */
  function ToView(b: Buckets): (v: View)
    ensures v.Keys == WeekdaySet
    ensures forall w :: 0 <= w < 7 ==> WeekdayNames[w] in v && v[WeekdayNames[w]] == b[w]
  {
    map["monday" := b[1], "tuesday" := b[2], "wednesday" := b[3], "thursday" := b[4],
        "friday" := b[5], "saturday" := b[6], "sunday" := b[0]]
  }

  // ----- The handler -----

  /** No override of `user` dated in [lo, hi] falls on the weekday of `day`. */
  predicate NoOverrideOnWeekday(ovs: seq<Override>, user: int, lo: Date, hi: Date, day: int)
  {
    forall o :: o in ovs && Selected(o, user, lo, hi) ==> DayIndex(o.day) != DayIndex(day)
  }

  /** The buckets for a valid range [lo, hi]: lines 25-90 of the handler. */
  function ResolveBuckets(rec: seq<Recurring>, ovs: seq<Override>, user: int, lo: Date, hi: Date): Buckets
  {
    var regular := SortBy(RegularRows(rec, user), DaySlotKey);
    var edited := SortBy<EditedEntry>(EditedRows(ovs, user, lo, hi), DateSlotKey);
    OverlayAll(Place(regular), edited)
  }

  /**
    The weekly view for `user` over [start, end]; `None` stands for a date
    that does not parse.
   */
  function Resolve(rec: seq<Recurring>, ovs: seq<Override>, user: int, start: Option<Date>, end: Option<Date>): (r: Result<View, RangeError>)
    ensures r.Success? <==> start.Some? && end.Some? && start.value <= end.value
    ensures r.Failure? ==> (r.error == InvalidDateFormat <==> start.None? || end.None?)
    ensures r.Success? ==> r.value.Keys == WeekdaySet
    ensures r.Success? ==> forall x :: x in rec && x.userId == user && NoOverrideOnWeekday(ovs, user, start.value, end.value, x.day) ==>
              AsRegular(x) in r.value[DayName(x.day)]
  {
    if start.None? || end.None? then Failure(InvalidDateFormat)
    else if end.value < start.value then Failure(EndBeforeStart)
    else
      var b := ResolveBuckets(rec, ovs, user, start.value, end.value);
      assert forall x :: x in rec && x.userId == user && NoOverrideOnWeekday(ovs, user, start.value, end.value, x.day) ==>
              AsRegular(x) in b[DayIndex(x.day)] by {
        forall x | x in rec && x.userId == user && NoOverrideOnWeekday(ovs, user, start.value, end.value, x.day)
          ensures AsRegular(x) in b[DayIndex(x.day)]
        {
          UntouchedWeekdayKept(rec, ovs, user, start.value, end.value, x);
        }
      }
      Success(ToView(b))
  }

  /** A recurring row stays in its bucket when no override in the range falls on its weekday. */
  lemma UntouchedWeekdayKept(rec: seq<Recurring>, ovs: seq<Override>, user: int, lo: Date, hi: Date, x: Recurring)
    requires x in rec && x.userId == user && NoOverrideOnWeekday(ovs, user, lo, hi, x.day)
    ensures AsRegular(x) in ResolveBuckets(rec, ovs, user, lo, hi)[DayIndex(x.day)]
  {
    var regular := SortBy(RegularRows(rec, user), DaySlotKey);
    var edited := SortBy<EditedEntry>(EditedRows(ovs, user, lo, hi), DateSlotKey);
    var w := DayIndex(x.day);
    PlacedOnWeekday(rec, user, x);
    NoneOnWeekday(ovs, user, lo, hi, x.day);
    KeptInBucket(Place(regular), edited, AsRegular(x), w);
  }

  /** Overlaying overrides none of which falls on weekday `w` keeps every entry of bucket `w`. */
  lemma KeptInBucket(b: Buckets, eds: seq<EditedEntry>, e: Entry, w: int)
    requires 0 <= w < 7 && e in b[w]
    requires forall ed :: ed in eds ==> DayIndex(ed.day) != w
    ensures e in OverlayAll(b, eds)[w]
  {
  }

  /** Each recurring row of the user is placed in the bucket of its weekday. */
  lemma PlacedOnWeekday(rec: seq<Recurring>, user: int, x: Recurring)
    requires x in rec && x.userId == user
    ensures AsRegular(x) in Place(SortBy(RegularRows(rec, user), DaySlotKey))[DayIndex(x.day)]
  {
    var rows := RegularRows(rec, user);
    var regular := SortBy(rows, DaySlotKey);
    var w := DayIndex(x.day);
    assert AsRegular(x) in rows;
    assert multiset(regular) == multiset(rows);
    assert AsRegular(x) in multiset(rows);
    assert AsRegular(x) in regular;
    assert OnDay(w)(AsRegular(x));
    assert AsRegular(x) in Filter(regular, OnDay(w));
  }

  /** When no selected override falls on the weekday of `day`, neither does any sorted override entry. */
  lemma NoneOnWeekday(ovs: seq<Override>, user: int, lo: Date, hi: Date, day: int)
    requires NoOverrideOnWeekday(ovs, user, lo, hi, day)
    ensures forall e :: e in SortBy<EditedEntry>(EditedRows(ovs, user, lo, hi), DateSlotKey) ==> DayIndex(e.day) != DayIndex(day)
  {
    var edited := SortBy<EditedEntry>(EditedRows(ovs, user, lo, hi), DateSlotKey);
    forall e | e in edited ensures DayIndex(e.day) != DayIndex(day) {
      assert e in multiset(edited);
      assert e in EditedRows(ovs, user, lo, hi);
    }
  }

  // ----- What one overlay does -----

  /** Every entry of the bucket has the override's weekday. */
  predicate SameWeekday(bucket: seq<Entry>, ed: EditedEntry)
  {
    forall e :: e in bucket ==> e.day == ed.day
  }

  /**
    The guard is redundant: in a bucket whose entries share the override's
    weekday, guarding the filter changes nothing.
   */
  lemma GuardRedundant(bucket: seq<Entry>, ed: EditedEntry)
    requires SameWeekday(bucket, ed)
    ensures Supersede(bucket, ed) == Filter(bucket, Unmatched(ed))
  {
    if !Guard(bucket, ed) {
      FilterAll(bucket, Unmatched(ed));
    }
  }

  /**
    One overlay removes exactly the entries whose id is the override's
    `schedule_id` and whose slot is the override's slot, keeps every other
    entry (every copy of it), and adds the override once.
   */
  lemma OverlayKeepsTheRest(bucket: seq<Entry>, ed: EditedEntry)
    requires SameWeekday(bucket, ed)
    ensures forall e :: multiset(Overlay(bucket, ed))[e] ==
              (if Matches(ed, e) then 0 else multiset(bucket)[e]) + (if e == ed then 1 else 0)
  {
    GuardRedundant(bucket, ed);
    FilterCount(bucket, Unmatched(ed));
  }

  // ----- The effective content of every bucket -----

  /** An override row supersedes the recurring entry it names, on its weekday and slot. */
  predicate Supersedes(x: Entry, e: Entry)
  {
    x.Edited? && e.Regular? && e.id == x.scheduleId && e.slot == x.slot && e.day == x.day
  }

  predicate Overridden(e: Entry, eds: seq<Entry>)
  {
    exists x :: x in eds && Supersedes(x, e)
  }

  /** Selects the entries of weekday `w` that no override of `eds` supersedes. */
  function Survives(eds: seq<Entry>, w: int): Entry -> bool
  {
    (e: Entry) => DayIndex(e.day) == w && !Overridden(e, eds)
  }

  function OverriddenBy(eds: seq<Entry>): Entry -> bool
  {
    (e: Entry) => Overridden(e, eds)
  }

  /**
    The effective content of weekday `w`: the recurring entries of that
    weekday no override supersedes, plus the overrides of that weekday.
   */
  ghost function Expected(regular: seq<Entry>, eds: seq<Entry>, w: int): multiset<Entry>
  {
    multiset(Filter(regular, Survives(eds, w))) + multiset(Filter(eds, OnDay(w)))
  }

  ghost predicate BucketsHold(b: Buckets, regular: seq<Entry>, eds: seq<Entry>)
  {
    forall w :: 0 <= w < 7 ==> multiset(b[w]) == Expected(regular, eds, w)
  }

  predicate InWeek(s: seq<Entry>)
  {
    forall e :: e in s ==> 0 <= e.day < 7
  }

  predicate AllEdited(s: seq<Entry>)
  {
    forall e :: e in s ==> e.Edited?
  }

  lemma OverriddenAppend(e: Entry, eds: seq<Entry>, ed: Entry)
    ensures Overridden(e, eds + [ed]) <==> Overridden(e, eds) || Supersedes(ed, e)
  {
    if Supersedes(ed, e) {
      assert ed in eds + [ed];
    }
    if Overridden(e, eds) {
      var x :| x in eds && Supersedes(x, e);
      assert x in eds + [ed];
    }
  }

  /** A bucket the override does not land in keeps its effective content. */
  lemma OverlayStepOther(bw: seq<Entry>, regular: seq<Entry>, eds: seq<Entry>, ed: EditedEntry, w: int)
    requires multiset(bw) == Expected(regular, eds, w)
    requires DayIndex(ed.day) != w
    ensures multiset(bw) == Expected(regular, eds + [ed], w)
  {
    forall e | e in regular ensures Survives(eds, w)(e) <==> Survives(eds + [ed], w)(e) {
      OverriddenAppend(e, eds, ed);
    }
    FilterEquiv(regular, Survives(eds, w), Survives(eds + [ed], w));
    FilterAppend(eds, [ed], OnDay(w));
    assert Filter([ed], OnDay(w)) == [];
  }

  /** Every entry of a bucket at its effective content lies on the bucket's weekday. */
  lemma ExpectedOnWeekday(bw: seq<Entry>, regular: seq<Entry>, eds: seq<Entry>, ed: EditedEntry)
    requires 0 <= ed.day < 7
    requires multiset(bw) == Expected(regular, eds, ed.day)
    requires InWeek(regular) && InWeek(eds)
    ensures SameWeekday(bw, ed)
  {
    var d := ed.day;
    forall e | e in bw ensures e.day == ed.day {
      assert e in multiset(bw);
      if e in Filter(regular, Survives(eds, d)) {
        assert e in regular;
      } else {
        assert e in Filter(eds, OnDay(d));
        assert e in eds;
      }
    }
  }

  /** The count of one entry after the overlay, on the bucket the override lands in. */
  lemma OverlayStepAt(bw: seq<Entry>, regular: seq<Entry>, eds: seq<Entry>, ed: EditedEntry, e: Entry)
    requires 0 <= ed.day < 7
    requires multiset(bw)[e] == Expected(regular, eds, ed.day)[e]
    requires InWeek(regular) && AllEdited(eds)
    requires multiset(Overlay(bw, ed))[e] == (if Matches(ed, e) then 0 else multiset(bw)[e]) + (if e == ed then 1 else 0)
    ensures multiset(Overlay(bw, ed))[e] == Expected(regular, eds + [ed], ed.day)[e]
  {
    if Matches(ed, e) {
      assert e.Regular?;
      MatchedEntryGone(regular, eds, ed, e);
    } else {
      UnmatchedEntryStays(regular, eds, ed, e);
    }
  }

  /** An entry the override does not match keeps its count, plus one if it is the override itself. */
  lemma UnmatchedEntryStays(regular: seq<Entry>, eds: seq<Entry>, ed: EditedEntry, e: Entry)
    requires 0 <= ed.day < 7 && !Matches(ed, e)
    ensures Expected(regular, eds + [ed], ed.day)[e] == Expected(regular, eds, ed.day)[e] + (if e == ed then 1 else 0)
  {
    RegularPartStays(regular, eds, ed, e, ed.day);
    EditedPartGrows(eds, ed, e);
  }

  /** An override that does not match `e` leaves the recurring part of the count of `e` alone. */
  lemma RegularPartStays(regular: seq<Entry>, eds: seq<Entry>, ed: EditedEntry, e: Entry, w: int)
    requires !Matches(ed, e)
    ensures multiset(Filter(regular, Survives(eds + [ed], w)))[e] == multiset(Filter(regular, Survives(eds, w)))[e]
  {
    OverriddenAppend(e, eds, ed);
    FilterCountAt(regular, Survives(eds + [ed], w), e);
    FilterCountAt(regular, Survives(eds, w), e);
  }

  /** Adding an override adds one to its own count on its weekday. */
  lemma EditedPartGrows(eds: seq<Entry>, ed: EditedEntry, e: Entry)
    requires 0 <= ed.day < 7
    ensures multiset(Filter(eds + [ed], OnDay(ed.day)))[e] == multiset(Filter(eds, OnDay(ed.day)))[e] + (if e == ed then 1 else 0)
  {
    FilterCountAt(eds + [ed], OnDay(ed.day), e);
    FilterCountAt(eds, OnDay(ed.day), e);
    assert multiset(eds + [ed])[e] == multiset(eds)[e] + (if e == ed then 1 else 0);
  }

  /** An entry the override matches has no copy left in the effective content of its weekday. */
  lemma MatchedEntryGone(regular: seq<Entry>, eds: seq<Entry>, ed: EditedEntry, e: Entry)
    requires 0 <= ed.day < 7
    requires InWeek(regular) && AllEdited(eds)
    requires Matches(ed, e)
    ensures Expected(regular, eds + [ed], ed.day)[e] == 0
  {
    var d := ed.day;
    FilterCountAt(regular, Survives(eds + [ed], d), e);
    FilterCountAt(eds + [ed], OnDay(d), e);
    assert e !in eds + [ed];
    if e in regular && DayIndex(e.day) == d {
      assert e.day == d;
      assert ed in eds + [ed] && Supersedes(ed, e);
    }
  }

  /** The bucket the override lands in gets the effective content with the override taken into account. */
  lemma OverlayStepSame(bw: seq<Entry>, regular: seq<Entry>, eds: seq<Entry>, ed: EditedEntry)
    requires 0 <= ed.day < 7
    requires multiset(bw) == Expected(regular, eds, ed.day)
    requires InWeek(regular) && InWeek(eds) && AllEdited(eds)
    ensures multiset(Overlay(bw, ed)) == Expected(regular, eds + [ed], ed.day)
  {
    ExpectedOnWeekday(bw, regular, eds, ed);
    OverlayKeepsTheRest(bw, ed);
    var lhs := multiset(Overlay(bw, ed));
    var rhs := Expected(regular, eds + [ed], ed.day);
    forall e ensures lhs[e] == rhs[e] {
      OverlayStepAt(bw, regular, eds, ed, e);
    }
    SameCounts(lhs, rhs);
  }

  /** Multisets are equal when they count every element alike. */
  lemma SameCounts<T>(a: multiset<T>, b: multiset<T>)
    requires forall e :: a[e] == b[e]
    ensures a == b
  {
  }

  lemma OverlayStep(b: Buckets, regular: seq<Entry>, eds: seq<Entry>, ed: EditedEntry)
    requires BucketsHold(b, regular, eds)
    requires 0 <= ed.day < 7 && InWeek(regular) && InWeek(eds) && AllEdited(eds)
    ensures BucketsHold(OverlayOne(b, ed), regular, eds + [ed])
  {
    var b' := OverlayOne(b, ed);
    forall w | 0 <= w < 7 ensures multiset(b'[w]) == Expected(regular, eds + [ed], w) {
      if w == ed.day {
        OverlayStepSame(b[w], regular, eds, ed);
      } else {
        OverlayStepOther(b[w], regular, eds, ed, w);
      }
    }
  }

  /** Overlaying the remaining overrides one by one keeps every bucket at its effective content. */
  lemma {:induction false} OverlayAllHolds(b: Buckets, regular: seq<Entry>, eds: seq<Entry>, rest: seq<EditedEntry>, all: seq<Entry>)
    requires all == eds + rest
    requires BucketsHold(b, regular, eds)
    requires InWeek(regular) && InWeek(eds) && InWeek(rest) && AllEdited(eds)
    ensures BucketsHold(OverlayAll(b, rest), regular, all)
    decreases |rest|
  {
    if |rest| == 0 {
      assert all == eds;
    } else {
      ShiftOne(eds, rest);
      OverlayStep(b, regular, eds, rest[0]);
      ConsumeOne(eds, rest);
      OverlayAllHolds(OverlayOne(b, rest[0]), regular, eds + [rest[0]], rest[1..], all);
    }
  }

  /** Moving the next override from the remaining ones to the processed ones keeps their shape. */
  lemma ShiftOne(eds: seq<Entry>, rest: seq<EditedEntry>)
    requires |rest| > 0
    requires InWeek(eds) && InWeek(rest) && AllEdited(eds)
    ensures 0 <= rest[0].day < 7
    ensures InWeek(eds + [rest[0]]) && AllEdited(eds + [rest[0]]) && InWeek(rest[1..])
  {
    assert rest[0] in rest;
    forall e | e in eds + [rest[0]] ensures 0 <= e.day < 7 && e.Edited? {
      assert e in eds || e == rest[0];
    }
    forall e | e in rest[1..] ensures 0 <= e.day < 7 {
      assert e in rest;
    }
  }

  lemma ConsumeOne(eds: seq<Entry>, rest: seq<Entry>)
    requires |rest| > 0
    ensures eds + [rest[0]] + rest[1..] == eds + rest
  {
    assert rest == [rest[0]] + rest[1..];
  }

  // ----- The view a valid request returns -----

  /** Every weekday value in both stores is a weekday index, as the request validation ensures. */
  predicate StoredWeekdays(rec: seq<Recurring>, ovs: seq<Override>)
  {
    (forall x :: x in rec ==> IsWeekday(x.day)) && (forall o :: o in ovs ==> IsWeekday(o.day))
  }

  lemma RowsInWeek(rec: seq<Recurring>, ovs: seq<Override>, user: int, lo: Date, hi: Date)
    requires StoredWeekdays(rec, ovs)
    ensures InWeek(RegularRows(rec, user)) && InWeek(EditedRows(ovs, user, lo, hi))
    ensures AllEdited(EditedRows(ovs, user, lo, hi))
    ensures forall e :: e in RegularRows(rec, user) ==> e.Regular?
  {
  }

  lemma InWeekPermutation(a: seq<Entry>, b: seq<Entry>)
    requires multiset(a) == multiset(b) && InWeek(b)
    ensures InWeek(a)
  {
    forall e | e in a ensures 0 <= e.day < 7 {
      assert e in multiset(a);
      assert e in b;
    }
  }

  lemma OverriddenPermutation(e: Entry, a: seq<Entry>, b: seq<Entry>)
    requires multiset(a) == multiset(b)
    ensures Overridden(e, a) <==> Overridden(e, b)
  {
    if Overridden(e, a) {
      var x :| x in a && Supersedes(x, e);
      assert x in multiset(a);
      assert x in b;
    }
    if Overridden(e, b) {
      var x :| x in b && Supersedes(x, e);
      assert x in multiset(b);
      assert x in a;
    }
  }

  /**
    Every bucket of a valid request holds its effective content: the user's
    recurring rows of that weekday that no override in the range supersedes,
    plus the user's overrides in the range that fall on that weekday.
   */
  lemma BucketsAreEffective(rec: seq<Recurring>, ovs: seq<Override>, user: int, lo: Date, hi: Date)
    requires StoredWeekdays(rec, ovs)
    ensures forall w :: 0 <= w < 7 ==>
              multiset(ResolveBuckets(rec, ovs, user, lo, hi)[w]) == Expected(RegularRows(rec, user), EditedRows(ovs, user, lo, hi), w)
  {
    var regular := RegularRows(rec, user);
    var edited: seq<Entry> := EditedRows(ovs, user, lo, hi);
    var rs := SortBy(RegularRows(rec, user), DaySlotKey);
    var es := SortBy<EditedEntry>(EditedRows(ovs, user, lo, hi), DateSlotKey);
    RowsInWeek(rec, ovs, user, lo, hi);
    InWeekPermutation(rs, regular);
    InWeekPermutation(es, edited);
    ResolveBucketsHold(rs, es);
    var b := ResolveBuckets(rec, ovs, user, lo, hi);
    assert b == OverlayAll(Place(rs), es);
    forall w | 0 <= w < 7 ensures multiset(b[w]) == Expected(regular, edited, w) {
      ExpectedPermutation(rs, regular, es, edited, w);
    }
  }

  /** Placing the recurring entries and overlaying all overrides yields the effective content. */
  lemma ResolveBucketsHold(rs: seq<Entry>, es: seq<EditedEntry>)
    requires InWeek(rs) && InWeek(es)
    ensures BucketsHold(OverlayAll(Place(rs), es), rs, es)
  {
    var none: seq<Entry> := [];
    PlaceHolds(rs);
    assert InWeek(none) && AllEdited(none);
    OverlayAllHolds(Place(rs), rs, none, es, es);
  }

  /** Before any override, every bucket holds the recurring entries of its weekday. */
  lemma PlaceHolds(rs: seq<Entry>)
    ensures BucketsHold(Place(rs), rs, [])
  {
    forall w | 0 <= w < 7 ensures multiset(Place(rs)[w]) == Expected(rs, [], w) {
      FilterEquiv(rs, OnDay(w), Survives([], w));
      assert Filter([], OnDay(w)) == [];
    }
  }

  /** The effective content does not depend on the order of either input. */
  lemma ExpectedPermutation(rs: seq<Entry>, regular: seq<Entry>, es: seq<Entry>, edited: seq<Entry>, w: int)
    requires multiset(rs) == multiset(regular) && multiset(es) == multiset(edited)
    ensures Expected(rs, es, w) == Expected(regular, edited, w)
  {
    FilterPermutation(rs, regular, Survives(es, w));
    forall e | e in regular ensures Survives(es, w)(e) <==> Survives(edited, w)(e) {
      OverriddenPermutation(e, es, edited);
    }
    FilterEquiv(regular, Survives(es, w), Survives(edited, w));
    FilterPermutation(es, edited, OnDay(w));
  }

  lemma SameDaySortedBySlot(s: seq<Entry>, w: int)
    requires SortedBy(s, DaySlotKey)
    requires forall e :: e in s ==> e.day == w
    ensures SortedBy(s, SlotKey)
  {
    forall i, j | 0 <= i < j < |s| ensures KeyLe(SlotKey(s[i]), SlotKey(s[j])) {
      assert KeyLe(DaySlotKey(s[i]), DaySlotKey(s[j]));
      assert s[i] in s && s[j] in s;
    }
  }

  /** Every bucket of a valid request is ordered by slot. */
  lemma BucketsSortedBySlot(rec: seq<Recurring>, ovs: seq<Override>, user: int, lo: Date, hi: Date)
    requires StoredWeekdays(rec, ovs)
    ensures forall w :: 0 <= w < 7 ==> SortedBy(ResolveBuckets(rec, ovs, user, lo, hi)[w], SlotKey)
  {
    var rs := SortBy(RegularRows(rec, user), DaySlotKey);
    RowsInWeek(rec, ovs, user, lo, hi);
    InWeekPermutation(rs, RegularRows(rec, user));
    PlacedSortedBySlot(rs);
  }

  /** Placing entries sorted by (weekday, slot) gives buckets sorted by slot. */
  lemma PlacedSortedBySlot(rs: seq<Entry>)
    requires SortedBy(rs, DaySlotKey) && InWeek(rs)
    ensures forall w :: 0 <= w < 7 ==> SortedBy(Place(rs)[w], SlotKey)
  {
    forall w | 0 <= w < 7 ensures SortedBy(Place(rs)[w], SlotKey) {
      FilterSorted(rs, OnDay(w), DaySlotKey);
      SameDaySortedBySlot(Filter(rs, OnDay(w)), w);
    }
  }

  /**
    The view of a valid range: under every weekday name, the effective
    content of that weekday, ordered by slot.
   */
  lemma ResolveIsEffectiveView(rec: seq<Recurring>, ovs: seq<Override>, user: int, lo: Date, hi: Date)
    requires lo <= hi && StoredWeekdays(rec, ovs)
    ensures Resolve(rec, ovs, user, Some(lo), Some(hi)).Success?
    ensures forall w :: 0 <= w < 7 ==>
              var v := Resolve(rec, ovs, user, Some(lo), Some(hi)).value;
              multiset(v[WeekdayNames[w]]) == Expected(RegularRows(rec, user), EditedRows(ovs, user, lo, hi), w)
              && SortedBy(v[WeekdayNames[w]], SlotKey)
  {
    BucketsAreEffective(rec, ovs, user, lo, hi);
    BucketsSortedBySlot(rec, ovs, user, lo, hi);
  }

  /** An override of `user` in [lo, hi] names recurring row `x` on its weekday and slot. */
  predicate OverriddenInRange(ovs: seq<Override>, user: int, lo: Date, hi: Date, x: Recurring)
  {
    exists o :: o in ovs && Selected(o, user, lo, hi) && o.scheduleId == x.id && o.slot == x.slot && o.day == x.day
  }

  lemma OverriddenInRangeIff(ovs: seq<Override>, user: int, lo: Date, hi: Date, x: Recurring)
    ensures Overridden(AsRegular(x), EditedRows(ovs, user, lo, hi)) <==> OverriddenInRange(ovs, user, lo, hi, x)
  {
    var edited := EditedRows(ovs, user, lo, hi);
    if Overridden(AsRegular(x), edited) {
      var y :| y in edited && Supersedes(y, AsRegular(x));
      var o :| o in ovs && Selected(o, user, lo, hi) && y == AsEdited(o);
      assert o.scheduleId == x.id && o.slot == x.slot && o.day == x.day;
    }
    if OverriddenInRange(ovs, user, lo, hi, x) {
      var o :| o in ovs && Selected(o, user, lo, hi) && o.scheduleId == x.id && o.slot == x.slot && o.day == x.day;
      assert AsEdited(o) in edited;
      assert Supersedes(AsEdited(o), AsRegular(x));
    }
  }

  /**
    A recurring row of the user is shown under its own weekday exactly when
    no override in the range supersedes it, and never under another weekday.
   */
  lemma RecurringShownUnlessOverridden(rec: seq<Recurring>, ovs: seq<Override>, user: int, lo: Date, hi: Date, x: Recurring)
    requires lo <= hi && StoredWeekdays(rec, ovs)
    requires x in rec && x.userId == user
    ensures var v := Resolve(rec, ovs, user, Some(lo), Some(hi)).value;
            AsRegular(x) in v[DayName(x.day)] <==> !OverriddenInRange(ovs, user, lo, hi, x)
    ensures var v := Resolve(rec, ovs, user, Some(lo), Some(hi)).value;
            forall w :: 0 <= w < 7 && w != x.day ==> AsRegular(x) !in v[WeekdayNames[w]]
  {
    var v := Resolve(rec, ovs, user, Some(lo), Some(hi)).value;
    var regular := RegularRows(rec, user);
    var edited: seq<Entry> := EditedRows(ovs, user, lo, hi);
    var e := AsRegular(x);
    RowsInWeek(rec, ovs, user, lo, hi);
    OverriddenInRangeIff(ovs, user, lo, hi, x);
    assert e in regular;
    assert e !in edited;
    forall w | 0 <= w < 7 ensures multiset(v[WeekdayNames[w]])[e] == if w == x.day && !Overridden(e, edited) then multiset(regular)[e] else 0 {
      ViewCountAt(rec, ovs, user, lo, hi, w, e);
      RegularCountAt(regular, edited, e, w);
    }
    assert multiset(v[WeekdayNames[x.day]])[e] > 0 <==> !Overridden(e, edited);
  }

  /** How often the view shows `e` under weekday `w`: as often as the effective content of `w` holds it. */
  lemma ViewCountAt(rec: seq<Recurring>, ovs: seq<Override>, user: int, lo: Date, hi: Date, w: int, e: Entry)
    requires lo <= hi && StoredWeekdays(rec, ovs) && 0 <= w < 7
    ensures Resolve(rec, ovs, user, Some(lo), Some(hi)).Success?
    ensures multiset(Resolve(rec, ovs, user, Some(lo), Some(hi)).value[WeekdayNames[w]])[e]
         == Expected(RegularRows(rec, user), EditedRows(ovs, user, lo, hi), w)[e]
  {
    ResolveIsEffectiveView(rec, ovs, user, lo, hi);
  }

  /** A recurring entry counts in the effective content of its own weekday only, and only while not superseded. */
  lemma RegularCountAt(regular: seq<Entry>, eds: seq<Entry>, e: Entry, w: int)
    requires e !in eds
    ensures Expected(regular, eds, w)[e] == if DayIndex(e.day) == w && !Overridden(e, eds) then multiset(regular)[e] else 0
  {
    FilterCountAt(regular, Survives(eds, w), e);
    FilterCountAt(eds, OnDay(w), e);
  }

  /** Under the uniqueness of (`schedule_id`, `occurrence_date`), a selected override is read exactly once. */
  lemma {:induction false} EditedRowsOnce(ovs: seq<Override>, user: int, lo: Date, hi: Date, o: Override)
    requires UniqueOccurrences(ovs) && o in ovs && Selected(o, user, lo, hi)
    ensures multiset(EditedRows(ovs, user, lo, hi))[AsEdited(o)] == 1
  {
    var tail := ovs[1..];
    var head: seq<Entry> := if Selected(ovs[0], user, lo, hi) then [AsEdited(ovs[0])] else [];
    assert EditedRows(ovs, user, lo, hi) == head + EditedRows(tail, user, lo, hi);
    if ovs[0] == o {
      HeadNotRepeated(ovs);
      assert AsEdited(o) !in EditedRows(tail, user, lo, hi);
    } else {
      HeadDiffers(ovs, o);
      UniqueTail(ovs);
      EditedRowsOnce(tail, user, lo, hi, o);
    }
  }

  /** Under `UniqueOccurrences`, no later row shows the same entry as the first. */
  lemma HeadNotRepeated(ovs: seq<Override>)
    requires UniqueOccurrences(ovs) && |ovs| > 0
    ensures forall o' :: o' in ovs[1..] ==> AsEdited(o') != AsEdited(ovs[0])
  {
    forall o' | o' in ovs[1..] ensures AsEdited(o') != AsEdited(ovs[0]) {
      var j :| 0 <= j < |ovs[1..]| && ovs[1..][j] == o';
      assert ovs[j + 1] == o';
    }
  }

  /** Under `UniqueOccurrences`, a row other than the first shows another entry than the first. */
  lemma HeadDiffers(ovs: seq<Override>, o: Override)
    requires UniqueOccurrences(ovs) && o in ovs && ovs[0] != o
    ensures o in ovs[1..] && AsEdited(ovs[0]) != AsEdited(o)
  {
    var j :| 0 <= j < |ovs| && ovs[j] == o;
  }

  lemma UniqueTail(ovs: seq<Override>)
    requires UniqueOccurrences(ovs) && |ovs| > 0
    ensures UniqueOccurrences(ovs[1..])
  {
    var tail := ovs[1..];
    forall i, k | 0 <= i < k < |tail| ensures tail[i].scheduleId != tail[k].scheduleId || tail[i].date != tail[k].date {
      assert tail[i] == ovs[i + 1] && tail[k] == ovs[k + 1];
    }
  }

  /**
    Every override of the user dated in the range is shown exactly once,
    under the weekday of its own `day_of_week`, and nowhere else.
   */
  lemma OverrideShownOnce(rec: seq<Recurring>, ovs: seq<Override>, user: int, lo: Date, hi: Date, o: Override)
    requires lo <= hi && StoredWeekdays(rec, ovs) && UniqueOccurrences(ovs)
    requires o in ovs && Selected(o, user, lo, hi)
    ensures var v := Resolve(rec, ovs, user, Some(lo), Some(hi)).value;
            multiset(v[DayName(o.day)])[AsEdited(o)] == 1
    ensures var v := Resolve(rec, ovs, user, Some(lo), Some(hi)).value;
            forall w :: 0 <= w < 7 && w != o.day ==> AsEdited(o) !in v[WeekdayNames[w]]
  {
    var v := Resolve(rec, ovs, user, Some(lo), Some(hi)).value;
    var regular := RegularRows(rec, user);
    var edited: seq<Entry> := EditedRows(ovs, user, lo, hi);
    var e: Entry := AsEdited(o);
    RowsInWeek(rec, ovs, user, lo, hi);
    EditedRowsOnce(ovs, user, lo, hi, o);
    assert e !in regular;
    forall w | 0 <= w < 7 ensures multiset(v[WeekdayNames[w]])[e] == if w == o.day then 1 else 0 {
      ViewCountAt(rec, ovs, user, lo, hi, w, e);
      FilterCountAt(regular, Survives(edited, w), e);
      FilterCountAt(edited, OnDay(w), e);
    }
  }

  /** The number of entries a view shows over the seven weekdays. */
  function ViewSize(v: View): nat
    requires v.Keys == WeekdaySet
  {
    |v["sunday"]| + |v["monday"]| + |v["tuesday"]| + |v["wednesday"]| + |v["thursday"]| + |v["friday"]| + |v["saturday"]|
  }

  /** The effective content of weekday `w` holds an entry only if `w` is that entry's weekday. */
  lemma ExpectedAt(regular: seq<Entry>, eds: seq<Entry>, w: int, e: Entry)
    ensures Expected(regular, eds, w)[e] ==
              if DayIndex(e.day) == w
              then multiset(Filter(regular, Not(OverriddenBy(eds))))[e] + multiset(eds)[e]
              else 0
  {
    FilterCountAt(regular, Not(OverriddenBy(eds)), e);
    FilterCountAt(regular, Survives(eds, w), e);
    FilterCountAt(eds, OnDay(w), e);
  }

  /** Over the seven weekdays, the effective content counts each surviving recurring entry and each override once. */
  lemma ExpectedAcrossWeek(regular: seq<Entry>, eds: seq<Entry>, e: Entry)
    ensures Expected(regular, eds, 0)[e] + Expected(regular, eds, 1)[e] + Expected(regular, eds, 2)[e]
          + Expected(regular, eds, 3)[e] + Expected(regular, eds, 4)[e] + Expected(regular, eds, 5)[e]
          + Expected(regular, eds, 6)[e]
         == multiset(Filter(regular, Not(OverriddenBy(eds))))[e] + multiset(eds)[e]
  {
    ExpectedAt(regular, eds, 0, e);
    ExpectedAt(regular, eds, 1, e);
    ExpectedAt(regular, eds, 2, e);
    ExpectedAt(regular, eds, 3, e);
    ExpectedAt(regular, eds, 4, e);
    ExpectedAt(regular, eds, 5, e);
    ExpectedAt(regular, eds, 6, e);
  }

  /** Over the week, the effective contents add up to the surviving recurring entries and the overrides. */
  lemma ExpectedWeekTotal(regular: seq<Entry>, eds: seq<Entry>)
    ensures Expected(regular, eds, 0) + Expected(regular, eds, 1) + Expected(regular, eds, 2)
          + Expected(regular, eds, 3) + Expected(regular, eds, 4) + Expected(regular, eds, 5)
          + Expected(regular, eds, 6)
         == multiset(Filter(regular, Not(OverriddenBy(eds)))) + multiset(eds)
  {
    var kept := multiset(Filter(regular, Not(OverriddenBy(eds)))) + multiset(eds);
    forall e ensures Expected(regular, eds, 0)[e] + Expected(regular, eds, 1)[e] + Expected(regular, eds, 2)[e]
                   + Expected(regular, eds, 3)[e] + Expected(regular, eds, 4)[e] + Expected(regular, eds, 5)[e]
                   + Expected(regular, eds, 6)[e] == kept[e]
    {
      ExpectedAcrossWeek(regular, eds, e);
    }
    SumOfSeven(Expected(regular, eds, 0), Expected(regular, eds, 1), Expected(regular, eds, 2), Expected(regular, eds, 3),
               Expected(regular, eds, 4), Expected(regular, eds, 5), Expected(regular, eds, 6), kept);
  }

  /** Seven multisets add up to `k` when they do so element by element; then their sizes add up too. */
  lemma SumOfSeven<T>(m0: multiset<T>, m1: multiset<T>, m2: multiset<T>, m3: multiset<T>,
                      m4: multiset<T>, m5: multiset<T>, m6: multiset<T>, k: multiset<T>)
    requires forall e :: m0[e] + m1[e] + m2[e] + m3[e] + m4[e] + m5[e] + m6[e] == k[e]
    ensures m0 + m1 + m2 + m3 + m4 + m5 + m6 == k
    ensures |m0| + |m1| + |m2| + |m3| + |m4| + |m5| + |m6| == |k|
  {
    assert m0 + m1 + m2 + m3 + m4 + m5 + m6 == k;
  }

  /** Summed over the week, the effective content has one entry per surviving recurring entry and per override. */
  lemma ExpectedWeekSize(regular: seq<Entry>, eds: seq<Entry>)
    ensures |Expected(regular, eds, 0)| + |Expected(regular, eds, 1)| + |Expected(regular, eds, 2)|
          + |Expected(regular, eds, 3)| + |Expected(regular, eds, 4)| + |Expected(regular, eds, 5)|
          + |Expected(regular, eds, 6)|
         == |regular| + |eds| - |Filter(regular, OverriddenBy(eds))|
  {
    var survivors := Filter(regular, Not(OverriddenBy(eds)));
    var kept := multiset(survivors) + multiset(eds);
    ExpectedWeekTotal(regular, eds);
    assert |kept| == |survivors| + |eds| by {
      assert |multiset(survivors)| == |survivors|;
    }
    FilterPartition(regular, OverriddenBy(eds));
  }

  /**
    The view shows as many entries as the user has recurring rows, plus the
    overrides in the range, minus the recurring rows those overrides supersede.
   */
  lemma ResolveSize(rec: seq<Recurring>, ovs: seq<Override>, user: int, lo: Date, hi: Date)
    requires lo <= hi && StoredWeekdays(rec, ovs)
    ensures Resolve(rec, ovs, user, Some(lo), Some(hi)).Success?
    ensures var v := Resolve(rec, ovs, user, Some(lo), Some(hi)).value;
            var edited := EditedRows(ovs, user, lo, hi);
            ViewSize(v) == |RegularRows(rec, user)| + |edited| - |Filter(RegularRows(rec, user), OverriddenBy(edited))|
  {
    var regular := RegularRows(rec, user);
    var edited: seq<Entry> := EditedRows(ovs, user, lo, hi);
    ExpectedWeekSize(regular, edited);
    BucketSize(rec, ovs, user, lo, hi, 0);
    BucketSize(rec, ovs, user, lo, hi, 1);
    BucketSize(rec, ovs, user, lo, hi, 2);
    BucketSize(rec, ovs, user, lo, hi, 3);
    BucketSize(rec, ovs, user, lo, hi, 4);
    BucketSize(rec, ovs, user, lo, hi, 5);
    BucketSize(rec, ovs, user, lo, hi, 6);
    assert WeekdayNames[0] == "sunday" && WeekdayNames[1] == "monday" && WeekdayNames[2] == "tuesday";
    assert WeekdayNames[3] == "wednesday" && WeekdayNames[4] == "thursday";
    assert WeekdayNames[5] == "friday" && WeekdayNames[6] == "saturday";
  }

  /** The view shows as many entries under weekday `w` as the effective content of `w` has. */
  lemma BucketSize(rec: seq<Recurring>, ovs: seq<Override>, user: int, lo: Date, hi: Date, w: int)
    requires lo <= hi && StoredWeekdays(rec, ovs) && 0 <= w < 7
    ensures Resolve(rec, ovs, user, Some(lo), Some(hi)).Success?
    ensures |Resolve(rec, ovs, user, Some(lo), Some(hi)).value[WeekdayNames[w]]|
         == |Expected(RegularRows(rec, user), EditedRows(ovs, user, lo, hi), w)|
  {
    var v := Resolve(rec, ovs, user, Some(lo), Some(hi)).value;
    ResolveIsEffectiveView(rec, ovs, user, lo, hi);
    assert |multiset(v[WeekdayNames[w]])| == |v[WeekdayNames[w]]|;
  }

  lemma {:induction false} EditedRowsAppend(a: seq<Override>, b: seq<Override>, user: int, lo: Date, hi: Date)
    ensures EditedRows(a + b, user, lo, hi) == EditedRows(a, user, lo, hi) + EditedRows(b, user, lo, hi)
  {
    if |a| == 0 {
      assert a + b == b;
    } else {
      var head: seq<EditedEntry> := if Selected(a[0], user, lo, hi) then [AsEdited(a[0])] else [];
      assert (a + b)[0] == a[0] && (a + b)[1..] == a[1..] + b;
      EditedRowsAppend(a[1..], b, user, lo, hi);
      assert EditedRows(a + b, user, lo, hi) == head + EditedRows(a[1..] + b, user, lo, hi);
    }
  }

  /** An override dated outside the range, or of another user, has no effect on the result. */
  lemma OutOfRangeOverrideIgnored(rec: seq<Recurring>, before: seq<Override>, o: Override, after: seq<Override>,
                                  user: int, start: Option<Date>, end: Option<Date>)
    requires !(start.Some? && end.Some? && Selected(o, user, start.value, end.value))
    ensures Resolve(rec, before + [o] + after, user, start, end) == Resolve(rec, before + after, user, start, end)
  {
    if start.Some? && end.Some? && start.value <= end.value {
      var lo, hi := start.value, end.value;
      EditedRowsAppend(before + [o], after, user, lo, hi);
      EditedRowsAppend(before, [o], user, lo, hi);
      EditedRowsAppend(before, after, user, lo, hi);
      assert EditedRows([o], user, lo, hi) == [];
      assert EditedRows(before + [o] + after, user, lo, hi) == EditedRows(before + after, user, lo, hi);
    }
  }
}
