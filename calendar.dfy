/** The month calendar of the event directory: events are binned by the day
    of month their `dateSort` names, the grid is a run of blank cells up to
    the weekday of the first, then one cell per day, each listing at most
    three events; clicking a day with events opens a detail dialog with that
    day's events in date order. */
module Calendar {
  import opened Optional
  import opened ExpoTypes
  import opened Text
  import Sequences
  import opened DateOrder
  import opened Gregorian

  /** The month shown: December 2025 (months are 0-based). */
  const TARGET_YEAR: int := 2025
  const TARGET_MONTH: int := 11

  /** Events listed in a day cell before the "+N more" badge. */
  const MAX_VISIBLE_EVENTS: nat := 3

  /** Coloured dots in a day cell before the single overflow dot. */
  const MAX_DOTS: nat := 4

  /** Year, month (1-based, as written) and day read from a `dateSort`;
      None stands for NaN. */
  datatype ParsedDate = ParsedDate(year: Option<nat>, month: Option<nat>, day: Option<nat>)

  /** `parseInt(parts[i])`; a missing part is `undefined`, which parses to NaN. */
  function PartAt(parts: seq<string>, i: nat): Option<nat>
  {
    if i < |parts| then ParseInt(parts[i]) else None
  }

  /** `dateSort.split('T')[0].split('-')`, each of the first three parts parsed. */
  function ParseDateSort(s: string): ParsedDate
  {
    var parts := SplitOn(SplitOn(s, 'T')[0], '-');
    ParsedDate(PartAt(parts, 0), PartAt(parts, 1), PartAt(parts, 2))
  }

  /** A key of the day-of-month record: a parsed day, or the key "NaN" that an
      unparseable day turns into. */
  datatype DayKey = Day(n: nat) | NotANumber

  /** The bin an event joins when the calendar shows 0-based month `month` of
      `year`: None when its year or month differ or do not parse. */
  function BinOf(e: ExpoEvent, year: int, month: int): Option<DayKey>
  {
    var p := ParseDateSort(e.dateSort);
    if p.year.Some? && p.year.value == year && p.month.Some? && p.month.value - 1 == month then
      Some(if p.day.Some? then Day(p.day.value) else NotANumber)
    else None
  }

  /** The events of `events` that go to bin `key`, in input order. */
  function EventsOn(key: DayKey, events: seq<ExpoEvent>, year: int, month: int): seq<ExpoEvent>
  {
    if |events| == 0 then []
    else
      var last := events[|events| - 1];
      EventsOn(key, events[..|events| - 1], year, month) + if BinOf(last, year, month) == Some(key) then [last] else []
  }

  /** A bin holds exactly the events whose date falls on its key, in input
      order; so every event of the shown month is in exactly one bin. */
  lemma EventsOnSpec(key: DayKey, events: seq<ExpoEvent>, year: int, month: int)
    ensures Sequences.IsSubsequence(EventsOn(key, events, year, month), events)
    ensures forall e :: e in EventsOn(key, events, year, month) <==> e in events && BinOf(e, year, month) == Some(key)
  {
    EventsOnKeep(key, events, year, month);
    Sequences.KeepSpec(e => BinOf(e, year, month) == Some(key), events);
  }

  /** A bin is `events.filter` by the bin test. */
  lemma {:induction false} EventsOnKeep(key: DayKey, events: seq<ExpoEvent>, year: int, month: int)
    ensures EventsOn(key, events, year, month) == Sequences.Keep(e => BinOf(e, year, month) == Some(key), events)
  {
    if |events| > 0 {
      EventsOnKeep(key, events[..|events| - 1], year, month);
    }
  }

  /** A bin keeps every copy of an event dated on its key, and no copy of any
      other event. */
  lemma EventsOnCounts(key: DayKey, events: seq<ExpoEvent>, year: int, month: int)
    ensures forall e :: multiset(EventsOn(key, events, year, month))[e]
                     == if BinOf(e, year, month) == Some(key) then multiset(events)[e] else 0
  {
    EventsOnKeep(key, events, year, month);
    forall e
      ensures multiset(EventsOn(key, events, year, month))[e]
           == if BinOf(e, year, month) == Some(key) then multiset(events)[e] else 0
    {
      Sequences.KeepCount(x => BinOf(x, year, month) == Some(key), events, e);
    }
  }

  lemma EventsOnSnoc(key: DayKey, s: seq<ExpoEvent>, e: ExpoEvent, year: int, month: int)
    ensures EventsOn(key, s + [e], year, month)
      == EventsOn(key, s, year, month) + (if BinOf(e, year, month) == Some(key) then [e] else [])
  {
    assert (s + [e])[..|s|] == s;
  }

  /** `bins` is the day record of `seen`: a key is present exactly when its
      bin is non-empty, and then holds that bin. */
  ghost predicate IsDayRecord(bins: map<DayKey, seq<ExpoEvent>>, seen: seq<ExpoEvent>, year: int, month: int)
  {
    && (forall key :: key in bins <==> EventsOn(key, seen, year, month) != [])
    && (forall key :: key in bins ==> bins[key] == EventsOn(key, seen, year, month))
  }

  /** An event outside the shown month leaves the record as it is. */
  lemma DayRecordSkip(bins: map<DayKey, seq<ExpoEvent>>, seen: seq<ExpoEvent>, e: ExpoEvent, year: int, month: int)
    requires IsDayRecord(bins, seen, year, month)
    requires BinOf(e, year, month).None?
    ensures IsDayRecord(bins, seen + [e], year, month)
  {
    forall key
      ensures EventsOn(key, seen + [e], year, month) == EventsOn(key, seen, year, month)
    {
      EventsOnSnoc(key, seen, e, year, month);
    }
  }

  /** Pushing an event onto its bin (created if missing) keeps the record. */
  lemma DayRecordPush(bins: map<DayKey, seq<ExpoEvent>>, seen: seq<ExpoEvent>, e: ExpoEvent, year: int, month: int, key: DayKey)
    requires IsDayRecord(bins, seen, year, month)
    requires BinOf(e, year, month) == Some(key)
    ensures IsDayRecord(bins[key := (if key in bins then bins[key] else []) + [e]], seen + [e], year, month)
  {
    var bins' := bins[key := (if key in bins then bins[key] else []) + [e]];
    forall key'
      ensures key' in bins' <==> EventsOn(key', seen + [e], year, month) != []
      ensures key' in bins' ==> bins'[key'] == EventsOn(key', seen + [e], year, month)
    {
      EventsOnSnoc(key', seen, e, year, month);
      if key' == key {
        assert EventsOn(key, seen + [e], year, month) == EventsOn(key, seen, year, month) + [e];
      } else {
        assert EventsOn(key', seen + [e], year, month) == EventsOn(key', seen, year, month);
      }
    }
  }

  /** `eventsByDay`: one pass over the events, creating a bin the first time
      its key is seen and appending to it. A key is present exactly when its
      bin would be non-empty. */
  method EventsByDay(events: seq<ExpoEvent>, year: int, month: int) returns (bins: map<DayKey, seq<ExpoEvent>>)
    ensures forall key :: key in bins <==> EventsOn(key, events, year, month) != []
    ensures forall key :: key in bins ==> bins[key] == EventsOn(key, events, year, month)
  {
    bins := map[];
    ghost var seen: seq<ExpoEvent> := [];
    var i := 0;
    while i < |events|
      invariant 0 <= i <= |events|
      invariant seen == events[..i]
      invariant IsDayRecord(bins, seen, year, month)
    {
      var e := events[i];
      var b := BinOf(e, year, month);
      if b.Some? {
        DayRecordPush(bins, seen, e, year, month, b.value);
        var bin := if b.value in bins then bins[b.value] else [];
        bins := bins[b.value := bin + [e]];
      } else {
        DayRecordSkip(bins, seen, e, year, month);
      }
      seen := seen + [e];
      i := i + 1;
    }
    assert seen == events;
  }

  /** An ISO date `YYYY-MM-DD`, each field zero-padded. */
  function IsoDate(y: nat, m: nat, d: nat): string
  {
    PaddedDigits(y, 4) + "-" + PaddedDigits(m, 2) + "-" + PaddedDigits(d, 2)
  }

  lemma IsoDateHasNoT(y: nat, m: nat, d: nat)
    ensures 'T' !in IsoDate(y, m, d)
  {
    var iso := IsoDate(y, m, d);
    forall i | 0 <= i < |iso|
      ensures iso[i] != 'T'
    {
      var Y, M := PaddedDigits(y, 4), PaddedDigits(m, 2);
      if i < 4 {
        assert iso[i] == Y[i];
      } else if 5 <= i < 7 {
        assert iso[i] == M[i - 5];
      } else if 8 <= i {
        assert iso[i] == PaddedDigits(d, 2)[i - 8];
      }
    }
  }

  /** Cutting at the first `T` leaves the date part of `YYYY-MM-DD[Thh:mm]`. */
  lemma IsoDatePart(y: nat, m: nat, d: nat, time: string)
    requires |time| == 0 || time[0] == 'T'
    ensures SplitOn(IsoDate(y, m, d) + time, 'T')[0] == IsoDate(y, m, d)
  {
    var iso := IsoDate(y, m, d);
    IsoDateHasNoT(y, m, d);
    if |time| == 0 {
      assert iso + time == iso;
      SplitOnWithout(iso, 'T');
    } else {
      assert iso + time == iso + ['T'] + time[1..];
      SplitOnFirst(iso, 'T', time[1..]);
    }
  }

  /** Splitting `YYYY-MM-DD` at the dashes gives its three fields. */
  lemma IsoDateFields(y: nat, m: nat, d: nat)
    ensures SplitOn(IsoDate(y, m, d), '-') == [PaddedDigits(y, 4), PaddedDigits(m, 2), PaddedDigits(d, 2)]
  {
    var Y, M, D := PaddedDigits(y, 4), PaddedDigits(m, 2), PaddedDigits(d, 2);
    assert IsoDate(y, m, d) == Y + ['-'] + (M + ['-'] + D);
    SplitOnFirst(Y, '-', M + ['-'] + D);
    SplitOnFirst(M, '-', D);
    SplitOnWithout(D, '-');
  }

  /** A date written `YYYY-MM-DD`, alone or followed by a `T` and a time,
      parses back to its three numbers. */
  lemma ParseIsoDate(y: nat, m: nat, d: nat, time: string)
    requires y < 10000 && m < 100 && d < 100
    requires |time| == 0 || time[0] == 'T'
    ensures ParseDateSort(IsoDate(y, m, d) + time) == ParsedDate(Some(y), Some(m), Some(d))
  {
    IsoDatePart(y, m, d, time);
    IsoDateFields(y, m, d);
    assert Pow10(4) == 10000 by {
      assert Pow10(2) == 100;
    }
    ParseIntPadded(y, 4, []);
    ParseIntPadded(m, 2, []);
    ParseIntPadded(d, 2, []);
    assert PaddedDigits(y, 4) + [] == PaddedDigits(y, 4);
    assert PaddedDigits(m, 2) + [] == PaddedDigits(m, 2);
    assert PaddedDigits(d, 2) + [] == PaddedDigits(d, 2);
  }

  /** An event dated `YYYY-MM-DD[Thh:mm]` joins bin d exactly when it lies in
      the shown month, and no bin otherwise. */
  lemma IsoDateBin(e: ExpoEvent, y: nat, m: nat, d: nat, time: string, year: int, month: int)
    requires y < 10000 && m < 100 && d < 100
    requires |time| == 0 || time[0] == 'T'
    requires e.dateSort == IsoDate(y, m, d) + time
    ensures BinOf(e, year, month) == if y == year && m - 1 == month then Some(Day(d)) else None
  {
    ParseIsoDate(y, m, d, time);
  }

  /** A `dateSort` that does not begin with a digit (empty, or text such as
      "not-a-date") has an unparseable year and lands in no bin. */
  lemma UndatedInNoBin(e: ExpoEvent, year: int, month: int)
    requires |e.dateSort| == 0 || !IsDigit(e.dateSort[0])
    ensures BinOf(e, year, month) == None
  {
    var s := e.dateSort;
    var datePart := SplitOn(s, 'T')[0];
    var first := SplitOn(datePart, '-')[0];
    SplitOnPieces(s, 'T');
    SplitOnPieces(datePart, '-');
    assert first <= s;
    assert ParseInt(first) == None;
  }

  lemma IsoExamples()
    ensures IsoDate(2025, 12, 12) == "2025-12-12"
    ensures IsoDate(2025, 11, 30) == "2025-11-30"
  {
    Year2025();
    TwoDigitExamples();
  }

  lemma Year2025()
    ensures PaddedDigits(2025, 4) == "2025"
  {
  }

  lemma TwoDigitExamples()
    ensures PaddedDigits(12, 2) == "12"
    ensures PaddedDigits(11, 2) == "11"
    ensures PaddedDigits(30, 2) == "30"
  {
  }

  /** "2025-12-12" lands on day 12 of December 2025. */
  lemma DecemberTwelfthBin(e: ExpoEvent)
    requires e.dateSort == "2025-12-12"
    ensures BinOf(e, TARGET_YEAR, TARGET_MONTH) == Some(Day(12))
  {
    IsoExamples();
    assert e.dateSort == IsoDate(2025, 12, 12) + "";
    IsoDateBin(e, 2025, 12, 12, "", TARGET_YEAR, TARGET_MONTH);
  }

  /** "2025-11-30" lies in November and lands in no December bin. */
  lemma NovemberThirtiethBin(e: ExpoEvent)
    requires e.dateSort == "2025-11-30"
    ensures BinOf(e, TARGET_YEAR, TARGET_MONTH) == None
  {
    IsoExamples();
    assert e.dateSort == IsoDate(2025, 11, 30) + "";
    IsoDateBin(e, 2025, 11, 30, "", TARGET_YEAR, TARGET_MONTH);
  }

  /** "2025-12-12T08:00": the time after the `T` is ignored. */
  lemma DecemberTwelfthMorningBin(e: ExpoEvent)
    requires e.dateSort == "2025-12-12T08:00"
    ensures BinOf(e, TARGET_YEAR, TARGET_MONTH) == Some(Day(12))
  {
    IsoExamples();
    assert e.dateSort == IsoDate(2025, 12, 12) + "T08:00";
    IsoDateBin(e, 2025, 12, 12, "T08:00", TARGET_YEAR, TARGET_MONTH);
  }

  /** What one day cell shows: the day's events, the first three as chips,
      the count left over, the first four as dots and whether an overflow dot
      follows them. */
  datatype DayCell = DayCell(day: nat, events: seq<ExpoEvent>, visible: seq<ExpoEvent>,
                             hiddenCount: int, dots: seq<ExpoEvent>, extraDot: bool)

  /** The "+N more" badge: shown only when the hidden count is positive. */
  function MoreBadge(c: DayCell): Option<nat>
  {
    if c.hiddenCount > 0 then Some(c.hiddenCount) else None
  }

  /** The cell of `day`: the chips are the leading `min(3, n)` events, the
      dots the leading `min(4, n)`; the badge appears exactly when more than
      three events fall on the day, and chips plus badge count every event. */
  function MakeDayCell(day: nat, dayEvents: seq<ExpoEvent>): (c: DayCell)
    ensures c.day == day && c.events == dayEvents
    ensures c.visible <= dayEvents
    ensures |c.visible| == if |dayEvents| < MAX_VISIBLE_EVENTS then |dayEvents| else MAX_VISIBLE_EVENTS
    ensures c.dots <= dayEvents
    ensures |c.dots| == if |dayEvents| < MAX_DOTS then |dayEvents| else MAX_DOTS
    ensures c.extraDot <==> |c.dots| < |dayEvents|
    ensures MoreBadge(c).Some? <==> |dayEvents| > MAX_VISIBLE_EVENTS
    ensures |c.visible| + (if MoreBadge(c).Some? then MoreBadge(c).value else 0) == |dayEvents|
  {
    var n := |dayEvents|;
    DayCell(day, dayEvents,
            dayEvents[..if n < MAX_VISIBLE_EVENTS then n else MAX_VISIBLE_EVENTS],
            n - MAX_VISIBLE_EVENTS,
            dayEvents[..if n < MAX_DOTS then n else MAX_DOTS],
            n > MAX_DOTS)
  }

  /** A grid cell: a blank before the first of the month, or a day. */
  datatype GridCell = Blank(index: nat) | DayOf(cell: DayCell)

  /** `eventsByDay[day] || []`. */
  function BinLookup(bins: map<DayKey, seq<ExpoEvent>>, day: nat): seq<ExpoEvent>
  {
    if Day(day) in bins then bins[Day(day)] else []
  }

  /** The grid: `firstDay` blanks, then the days 1 to `daysInMonth` in order,
      each built from its bin. Bins for other keys (day 0, day 32, "NaN") are
      never shown. */
  method BuildGrid(bins: map<DayKey, seq<ExpoEvent>>, firstDay: nat, daysInMonth: nat) returns (cells: seq<GridCell>)
    ensures |cells| == firstDay + daysInMonth
    ensures forall i :: 0 <= i < firstDay ==> cells[i] == Blank(i)
    ensures forall d :: 1 <= d <= daysInMonth ==> cells[firstDay + d - 1] == DayOf(MakeDayCell(d, BinLookup(bins, d)))
    ensures forall i :: firstDay <= i < |cells| ==> cells[i].DayOf? && 1 <= cells[i].cell.day <= daysInMonth
  {
    cells := [];
    for i := 0 to firstDay
      invariant |cells| == i
      invariant forall j :: 0 <= j < i ==> cells[j] == Blank(j)
    {
      cells := cells + [Blank(i)];
    }
    for day := 1 to daysInMonth + 1
      invariant |cells| == firstDay + day - 1
      invariant forall j :: 0 <= j < firstDay ==> cells[j] == Blank(j)
      invariant forall d :: 1 <= d < day ==> cells[firstDay + d - 1] == DayOf(MakeDayCell(d, BinLookup(bins, d)))
    {
      cells := cells + [DayOf(MakeDayCell(day, BinLookup(bins, day)))];
    }
    forall i | firstDay <= i < |cells|
      ensures cells[i].DayOf? && 1 <= cells[i].cell.day <= daysInMonth
    {
      var d := i - firstDay + 1;
      assert cells[firstDay + d - 1] == DayOf(MakeDayCell(d, BinLookup(bins, d)));
    }
  }

  /** The date and events of the open detail dialog. */
  datatype SelectedDay = SelectedDay(year: int, month: int, day: nat, events: seq<ExpoEvent>)

  /** The calendar component: the shown month is fixed, the open dialog is
      its only state. */
  class CalendarView {
    const year: int := TARGET_YEAR
    const month: int := TARGET_MONTH
    var selectedDay: Option<SelectedDay>

    /** The calendar starts with no dialog open. */
    constructor ()
      ensures selectedDay == None
    {
      selectedDay := None;
    }

    /** The whole grid for `events`: blanks up to the weekday of the first,
        then every day of the month with its own events. */
    method Cells(events: seq<ExpoEvent>) returns (cells: seq<GridCell>)
      ensures |cells| == FirstDayOfMonth(year, month) + DaysInMonth(year, month)
      ensures forall i :: 0 <= i < FirstDayOfMonth(year, month) ==> cells[i] == Blank(i)
      ensures forall d :: 1 <= d <= DaysInMonth(year, month) ==>
        cells[FirstDayOfMonth(year, month) + d - 1] == DayOf(MakeDayCell(d, EventsOn(Day(d), events, year, month)))
    {
      var bins := EventsByDay(events, year, month);
      cells := BuildGrid(bins, FirstDayOfMonth(year, month), DaysInMonth(year, month));
      forall d | 1 <= d <= DaysInMonth(year, month)
        ensures BinLookup(bins, d) == EventsOn(Day(d), events, year, month)
      {
      }
    }

    /** A click on a day opens the dialog with that day's events sorted by
        date; a day without events leaves the state as it was. */
    method HandleDayClick(day: nat, dayEvents: seq<ExpoEvent>)
      modifies this
      ensures |dayEvents| == 0 ==> selectedDay == old(selectedDay)
      ensures |dayEvents| > 0 ==> selectedDay == Some(SelectedDay(year, month, day, SortByDate(dayEvents)))
      ensures |dayEvents| > 0 ==>
        SortedByDate(selectedDay.value.events) && multiset(selectedDay.value.events) == multiset(dayEvents)
    {
      if |dayEvents| > 0 {
        SortByDateSorted(dayEvents);
        SortByDatePermutation(dayEvents);
        selectedDay := Some(SelectedDay(year, month, day, SortByDate(dayEvents)));
      }
    }

    /** A key pressed on a day cell: Enter or Space on a day with events
        acts as a click; any other key does nothing. */
    method DayKeyDown(day: nat, dayEvents: seq<ExpoEvent>, key: string)
      modifies this
      ensures |dayEvents| > 0 && (key == "Enter" || key == " ") ==>
        selectedDay == Some(SelectedDay(year, month, day, SortByDate(dayEvents)))
      ensures !(|dayEvents| > 0 && (key == "Enter" || key == " ")) ==> selectedDay == old(selectedDay)
    {
      if |dayEvents| > 0 && (key == "Enter" || key == " ") {
        HandleDayClick(day, dayEvents);
      }
    }

    /** The window key listener, present only while the dialog is open:
        Escape closes it. */
    method WindowKeyDown(key: string)
      modifies this
      ensures selectedDay == if old(selectedDay).Some? && key == "Escape" then None else old(selectedDay)
    {
      if selectedDay.Some? && key == "Escape" {
        selectedDay := None;
      }
    }

    /** A click on the backdrop or on the close button closes the dialog. */
    method Close()
      requires selectedDay.Some?
      modifies this
      ensures selectedDay == None
    {
      selectedDay := None;
    }
  }
}
