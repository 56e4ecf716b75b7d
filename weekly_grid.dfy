/**
 * The weekly schedule on the professor page: five weekday columns, twelve
 * hour rows from 8 to 19, and in each cell the professor's meetings on
 * that day whose whole-hour span, from the start hour up to but not
 * including the end hour, contains the row's hour. A class the professor
 * teaches is looked up in the catalog by id, and each such meeting of it
 * puts one entry in the cell.
 */
module WeeklyGrid {
  import opened Wrappers
  import opened JsText
  import opened Records
  import opened ScheduleDisplay

  /** An entry of `professors[0].classes`: a class the professor teaches. */
  datatype TaughtClass = TaughtClass(classId: int, className: string)

  /** What a cell shows for one meeting: `{ id, name, start, end }`. */
  datatype GridEntry = GridEntry(id: int, name: string, start: string, end: string)

  /** The hour of the first row and the number of rows. */
  const FirstHour: int := 8
  const HourRows: nat := 12

  /** The column headers, left to right. */
  const DayColumns: seq<string> := ["Monday", "Tuesday", "Wednesday", "Thursday", "Friday"]

  // ---------------------------------------------------------------------
  // Columns and rows
  // ---------------------------------------------------------------------

  /** The day code a column filters on: the first letter of the header,
      except that a header starting with T other than Tuesday gives R. */
  function ColumnCode(day: string): string {
    var first := if day == [] then "" else [day[0]];
    if first == "T" then (if day == "Tuesday" then "T" else "R") else first
  }

  /** The five columns filter on M, T, W, R and F. */
  lemma ColumnCodesAreWeekdays(d: int)
    requires 0 <= d < |DayColumns|
    ensures ColumnCode(DayColumns[d]) == DayCodes[d]
  {
  }

  /** Each column's code names the column's own weekday. */
  lemma ColumnCodeNamesItsColumn(d: int)
    requires 0 <= d < |DayColumns|
    ensures GetDayName(ColumnCode(DayColumns[d])) == DayColumns[d]
  {
    ColumnCodesAreWeekdays(d);
    GetDayNameOfCodes(d);
  }

  /** The text of the time column for a row: `${h > 12 ? h - 12 : h}:00 AM|PM`. */
  function TimeLabel(hour: int): string {
    NumberToString(if hour > 12 then hour - 12 else hour) + ":00 " + (if hour >= 12 then "PM" else "AM")
  }

  /** On the grid's rows, the time column says what `formatTime` says of the
      full hour. */
  lemma TimeLabelAgreesWithFormatTime(hour: nat)
    requires FirstHour <= hour < FirstHour + HourRows
    ensures TimeLabel(hour) == FormatTime(TwoDigitText(hour) + ":00:00")
  {
    var c := if hour > 12 then hour - 12 else hour;
    assert ClockHour(Some(hour)) == c;
    calc {
      FormatTime(TwoDigitText(hour) + ":00:00");
    == { assert TwoDigitText(hour) + ":00:00" == TwoDigitText(hour) + ":" + "00" + ":" + "00"; }
      FormatTime(TwoDigitText(hour) + ":" + "00" + ":" + "00");
    == { FormatTimeOfHour(hour, "00", "00"); }
      NatToString(c) + ":" + "00" + " " + Meridiem(Some(hour));
    ==
      NumberToString(c) + ":00 " + (if hour >= 12 then "PM" else "AM");
    }
  }

  // ---------------------------------------------------------------------
  // Which meetings cover a cell
  // ---------------------------------------------------------------------

  /** `parseInt(time.split(':')[0])`: the whole hour of a stored time; with
      no radix, so a `0x` prefix would be read as hexadecimal. */
  function HourOf(time: string): Option<int> {
    ParseInt(Split(time, ':')[0], NoRadix)
  }

  /** A stored time with a two-digit hour has that hour. */
  lemma HourOfTime(h: nat, rest: string)
    requires h < 100
    ensures HourOf(TwoDigitText(h) + ":" + rest) == Some(h)
  {
    var hh := TwoDigitText(h);
    assert ':' !in hh by { assert IsDecimalDigit(hh[0]) && IsDecimalDigit(hh[1]); }
    assert hh + ":" + rest == hh + [':'] + rest;
    SplitAtFirst(hh, ':', rest);
    TwoDigitValue(h);
    ParseIntOfDigits(hh, NoRadix);
  }

  /** Whether a meeting puts an entry in the cell of a day code and an hour:
      same day, `hour >= startHour && hour < endHour`. A `NaN` hour makes
      both comparisons false. */
  predicate Covers(slot: Slot, dayCode: string, hour: int) {
    slot.classDay == dayCode
    && HourOf(slot.startTime).Some? && HourOf(slot.endTime).Some?
    && HourOf(slot.startTime).value <= hour < HourOf(slot.endTime).value
  }

  /** A meeting whose stored times have two-digit hours `h1` and `h2`
      covers, on its own day, exactly the hours from `h1` up to but not
      including `h2`: the minutes play no part. */
  lemma CoversWholeHours(day: string, h1: nat, rest1: string, h2: nat, rest2: string, hour: int)
    requires h1 < 100 && h2 < 100
    ensures Covers(Slot(day, TwoDigitText(h1) + ":" + rest1, TwoDigitText(h2) + ":" + rest2), day, hour)
            <==> h1 <= hour < h2
  {
    HourOfTime(h1, rest1);
    HourOfTime(h2, rest2);
  }

  /** A meeting from 10:00 to 11:30 shows in the 10 o'clock row only: the
      half hour past 11 is not drawn. */
  lemma HalfHourEndIsDropped(day: string, hour: int)
    ensures Covers(Slot(day, "10:00:00", "11:30:00"), day, hour) <==> hour == 10
  {
    assert TwoDigitText(10) + ":" + "00:00" == "10:00:00";
    assert TwoDigitText(11) + ":" + "30:00" == "11:30:00";
    CoversWholeHours(day, 10, "00:00", 11, "30:00", hour);
  }

  /** A meeting that starts and ends within one hour shows in no row. */
  lemma WithinOneHourIsHidden(day: string, hour: int)
    ensures !Covers(Slot(day, "10:15:00", "10:45:00"), day, hour)
  {
    assert TwoDigitText(10) + ":" + "15:00" == "10:15:00";
    assert TwoDigitText(10) + ":" + "45:00" == "10:45:00";
    CoversWholeHours(day, 10, "15:00", 10, "45:00", hour);
  }

  /** Saturday and Sunday meetings are in none of the five columns. */
  lemma WeekendSlotIsHidden(slot: Slot, d: int, hour: int)
    requires slot.classDay == "SAT" || slot.classDay == "SUN"
    requires 0 <= d < |DayColumns|
    ensures !Covers(slot, ColumnCode(DayColumns[d]), hour)
  {
    ColumnCodesAreWeekdays(d);
  }

  // ---------------------------------------------------------------------
  // The catalog lookup: `classes.find(c => c.class_id === cls.class_id)`
  // ---------------------------------------------------------------------

  /** The first class of the catalog with the id, if any. */
  function FindClass(catalog: seq<ClassRecord>, id: int): (r: Option<ClassRecord>)
    ensures r.Some? ==> r.value in catalog && r.value.classId == id
  {
    if catalog == [] then None
    else if catalog[0].classId == id then Some(catalog[0])
    else FindClass(catalog[1..], id)
  }

  /** `find` fails exactly when no class has the id, and otherwise returns
      the first class that has it. */
  lemma {:induction false} FindClassFindsFirst(catalog: seq<ClassRecord>, id: int)
    ensures FindClass(catalog, id).None? <==> forall k :: 0 <= k < |catalog| ==> catalog[k].classId != id
    ensures FindClass(catalog, id).Some? ==>
              exists k :: 0 <= k < |catalog| && catalog[k] == FindClass(catalog, id).value
                && forall j :: 0 <= j < k ==> catalog[j].classId != id
  {
    if catalog != [] && catalog[0].classId != id {
      var tail := catalog[1..];
      FindClassFindsFirst(tail, id);
      assert forall k :: 1 <= k < |catalog| ==> catalog[k] == tail[k - 1];
      if FindClass(tail, id).Some? {
        var k :| 0 <= k < |tail| && tail[k] == FindClass(tail, id).value
          && forall j :: 0 <= j < k ==> tail[j].classId != id;
        assert catalog[k + 1] == FindClass(catalog, id).value;
      }
    }
  }

  // ---------------------------------------------------------------------
  // The contents of a cell, as a specification
  // ---------------------------------------------------------------------

  function EntryOf(c: ClassRecord, slot: Slot): GridEntry {
    GridEntry(c.classId, c.className, slot.startTime, slot.endTime)
  }

  /** The entries that the meetings `keep` accepts put in a cell, in
      schedule order. */
  function SlotEntries(c: ClassRecord, slots: seq<Slot>, keep: Slot -> bool): seq<GridEntry> {
    if slots == [] then []
    else
      var last := slots[|slots| - 1];
      SlotEntries(c, slots[..|slots| - 1], keep) + (if keep(last) then [EntryOf(c, last)] else [])
  }

  /** The lookup of a class id in the catalog. */
  function Finder(catalog: seq<ClassRecord>): int -> Option<ClassRecord> {
    id => FindClass(catalog, id)
  }

  /** The full record `lookup` gives for a taught class, when it has a
      schedule. */
  predicate Scheduled(lookup: int -> Option<ClassRecord>, t: TaughtClass) {
    lookup(t.classId).Some? && lookup(t.classId).value.schedule.Some?
  }

  /** The entries one taught class puts in a cell: none when the lookup
      does not find it or its record has no schedule. */
  function ClassEntries(lookup: int -> Option<ClassRecord>, t: TaughtClass, keep: Slot -> bool): seq<GridEntry> {
    if Scheduled(lookup, t) then
      var c := lookup(t.classId).value;
      SlotEntries(c, c.schedule.value, keep)
    else []
  }

  /** The entries of all taught classes, in taught order. */
  function TaughtEntries(taught: seq<TaughtClass>, lookup: int -> Option<ClassRecord>, keep: Slot -> bool): seq<GridEntry> {
    if taught == [] then []
    else TaughtEntries(taught[..|taught| - 1], lookup, keep) + ClassEntries(lookup, taught[|taught| - 1], keep)
  }

  /** `classesAtThisTime` for a day code and an hour; an empty catalog
      leaves every cell empty. */
  function CellSpec(taught: seq<TaughtClass>, catalog: seq<ClassRecord>, dayCode: string, hour: int): seq<GridEntry> {
    if |catalog| > 0 then TaughtEntries(taught, Finder(catalog), slot => Covers(slot, dayCode, hour)) else []
  }

  // ---------------------------------------------------------------------
  // The projection, as the page computes it
  // ---------------------------------------------------------------------

  /** The nested `forEach` loops that fill `classesAtThisTime`. */
  method CellEntries(taught: seq<TaughtClass>, catalog: seq<ClassRecord>, dayCode: string, hour: int)
    returns (cell: seq<GridEntry>)
    ensures cell == CellSpec(taught, catalog, dayCode, hour)
  {
    ghost var keep := slot => Covers(slot, dayCode, hour);
    ghost var lookup := Finder(catalog);
    cell := [];
    if |catalog| > 0 {
      var k := 0;
      while k < |taught|
        invariant 0 <= k <= |taught|
        invariant cell == TaughtEntries(taught[..k], lookup, keep)
      {
        assert taught[..k + 1][..k] == taught[..k];
        var fullClass := FindClass(catalog, taught[k].classId);
        if fullClass.Some? && fullClass.value.schedule.Some? {
          var meetings := MeetingEntries(fullClass.value, dayCode, hour);
          cell := cell + meetings;
        }
        k := k + 1;
      }
      assert taught[..k] == taught;
    }
  }

  /** The inner `forEach` over one class's schedule: the entries of the
      meetings on `dayCode` whose hours cover `hour`, in schedule order. */
  method MeetingEntries(c: ClassRecord, dayCode: string, hour: int) returns (entries: seq<GridEntry>)
    requires c.schedule.Some?
    ensures entries == SlotEntries(c, c.schedule.value, slot => Covers(slot, dayCode, hour))
  {
    ghost var keep := slot => Covers(slot, dayCode, hour);
    var slots := c.schedule.value;
    entries := [];
    var j := 0;
    while j < |slots|
      invariant 0 <= j <= |slots|
      invariant entries == SlotEntries(c, slots[..j], keep)
    {
      assert slots[..j + 1][..j] == slots[..j];
      var slot := slots[j];
      var meets := false;
      if slot.classDay == dayCode {
        var startHour := HourOf(slot.startTime);
        var endHour := HourOf(slot.endTime);
        meets := startHour.Some? && endHour.Some? && hour >= startHour.value && hour < endHour.value;
      }
      assert meets == keep(slot);
      if meets {
        entries := entries + [EntryOf(c, slot)];
      }
      j := j + 1;
    }
    assert slots[..j] == slots;
  }

  /** One weekday column: the cells of the hour rows 8 to 19, top down. */
  method BuildColumn(taught: seq<TaughtClass>, catalog: seq<ClassRecord>, dayCode: string)
    returns (column: seq<seq<GridEntry>>)
    ensures |column| == HourRows
    ensures forall r :: 0 <= r < HourRows ==> column[r] == CellSpec(taught, catalog, dayCode, FirstHour + r)
  {
    column := [];
    var i := 0;
    while i < HourRows
      invariant 0 <= i <= HourRows && |column| == i
      invariant forall r :: 0 <= r < i ==> column[r] == CellSpec(taught, catalog, dayCode, FirstHour + r)
    {
      var cell := CellEntries(taught, catalog, dayCode, FirstHour + i);
      column := column + [cell];
      i := i + 1;
    }
  }

  /** The whole grid: one column per weekday header, one cell per hour row. */
  method BuildGrid(taught: seq<TaughtClass>, catalog: seq<ClassRecord>)
    returns (grid: seq<seq<seq<GridEntry>>>)
    ensures |grid| == |DayColumns|
    ensures forall d :: 0 <= d < |grid| ==> |grid[d]| == HourRows
    ensures forall d, i :: 0 <= d < |grid| && 0 <= i < |grid[d]| ==>
              grid[d][i] == CellSpec(taught, catalog, ColumnCode(DayColumns[d]), FirstHour + i)
  {
    grid := [];
    var d := 0;
    while d < |DayColumns|
      invariant 0 <= d <= |DayColumns| && |grid| == d
      invariant forall e :: 0 <= e < d ==> |grid[e]| == HourRows
      invariant forall e, i :: 0 <= e < d && 0 <= i < |grid[e]| ==>
                  grid[e][i] == CellSpec(taught, catalog, ColumnCode(DayColumns[e]), FirstHour + i)
    {
      var column := BuildColumn(taught, catalog, ColumnCode(DayColumns[d]));
      grid := grid + [column];
      d := d + 1;
    }
  }

  // ---------------------------------------------------------------------
  // Properties of a cell
  // ---------------------------------------------------------------------

  /** A class's meetings put an entry in a cell exactly for each accepted
      meeting. */
  lemma {:induction false} SlotEntriesMembership(c: ClassRecord, slots: seq<Slot>, keep: Slot -> bool, e: GridEntry)
    ensures e in SlotEntries(c, slots, keep) <==>
            exists j :: 0 <= j < |slots| && keep(slots[j]) && e == EntryOf(c, slots[j])
    decreases |slots|
  {
    if slots != [] {
      var init := slots[..|slots| - 1];
      SlotEntriesMembership(c, init, keep, e);
      assert forall j :: 0 <= j < |init| ==> init[j] == slots[j];
    }
  }

  /** Some accepted meeting of the taught class gives the entry. */
  predicate ClassGives(lookup: int -> Option<ClassRecord>, t: TaughtClass, keep: Slot -> bool, e: GridEntry) {
    Scheduled(lookup, t)
    && var c := lookup(t.classId).value;
       var slots := c.schedule.value;
       exists j :: 0 <= j < |slots| && keep(slots[j]) && e == EntryOf(c, slots[j])
  }

  lemma {:induction false} TaughtEntriesMembership(taught: seq<TaughtClass>, lookup: int -> Option<ClassRecord>, keep: Slot -> bool, e: GridEntry)
    ensures e in TaughtEntries(taught, lookup, keep) <==>
            exists k :: 0 <= k < |taught| && ClassGives(lookup, taught[k], keep, e)
    decreases |taught|
  {
    if taught != [] {
      var init := taught[..|taught| - 1];
      var t := taught[|taught| - 1];
      assert taught == init + [t];
      TaughtEntriesSnoc(init, t, lookup, keep);
      TaughtEntriesMembership(init, lookup, keep, e);
      ClassEntriesMembership(lookup, t, keep, e);
      assert forall k :: 0 <= k < |init| ==> init[k] == taught[k];
      if ClassGives(lookup, t, keep, e) {
        assert ClassGives(lookup, taught[|taught| - 1], keep, e);
      }
    }
  }

  /** One taught class's entries are those of its accepted meetings. */
  lemma ClassEntriesMembership(lookup: int -> Option<ClassRecord>, t: TaughtClass, keep: Slot -> bool, e: GridEntry)
    ensures e in ClassEntries(lookup, t, keep) <==> ClassGives(lookup, t, keep, e)
  {
    if Scheduled(lookup, t) {
      var c := lookup(t.classId).value;
      SlotEntriesMembership(c, c.schedule.value, keep, e);
    }
  }

  /** Some meeting of the taught class on the day covers the hour and gives
      the entry. */
  predicate ClassMeetsAt(catalog: seq<ClassRecord>, t: TaughtClass, dayCode: string, hour: int, e: GridEntry) {
    Scheduled(Finder(catalog), t)
    && var c := FindClass(catalog, t.classId).value;
       var slots := c.schedule.value;
       exists j :: 0 <= j < |slots| && Covers(slots[j], dayCode, hour) && e == EntryOf(c, slots[j])
  }

  /** A cell holds an entry exactly when the catalog is not empty and some
      taught class, found in the catalog with a schedule, has a meeting on
      the cell's day whose whole-hour span covers the cell's hour; the entry
      carries that class's id and name and that meeting's times. */
  lemma CellMembership(taught: seq<TaughtClass>, catalog: seq<ClassRecord>, dayCode: string, hour: int, e: GridEntry)
    ensures e in CellSpec(taught, catalog, dayCode, hour) <==>
            |catalog| > 0 && exists k :: 0 <= k < |taught| && ClassMeetsAt(catalog, taught[k], dayCode, hour, e)
  {
    var keep := slot => Covers(slot, dayCode, hour);
    TaughtEntriesMembership(taught, Finder(catalog), keep, e);
    forall k | 0 <= k < |taught|
      ensures ClassGives(Finder(catalog), taught[k], keep, e) <==> ClassMeetsAt(catalog, taught[k], dayCode, hour, e)
    {
    }
  }

  /** One more taught class adds its own entries at the end. */
  lemma TaughtEntriesSnoc(init: seq<TaughtClass>, t: TaughtClass, lookup: int -> Option<ClassRecord>, keep: Slot -> bool)
    ensures TaughtEntries(init + [t], lookup, keep) == TaughtEntries(init, lookup, keep) + ClassEntries(lookup, t, keep)
  {
    assert (init + [t])[..|init + [t]| - 1] == init;
  }

  /** Cells list the entries of earlier taught classes first. */
  lemma {:induction false} TaughtEntriesAppend(a: seq<TaughtClass>, b: seq<TaughtClass>, lookup: int -> Option<ClassRecord>, keep: Slot -> bool)
    ensures TaughtEntries(a + b, lookup, keep) == TaughtEntries(a, lookup, keep) + TaughtEntries(b, lookup, keep)
    decreases |b|
  {
    if b == [] {
      assert a + b == a;
    } else {
      var b', t := b[..|b| - 1], b[|b| - 1];
      assert a + b == (a + b') + [t] && b == b' + [t];
      calc {
        TaughtEntries(a + b, lookup, keep);
      == { TaughtEntriesSnoc(a + b', t, lookup, keep); }
        TaughtEntries(a + b', lookup, keep) + ClassEntries(lookup, t, keep);
      == { TaughtEntriesAppend(a, b', lookup, keep); }
        (TaughtEntries(a, lookup, keep) + TaughtEntries(b', lookup, keep)) + ClassEntries(lookup, t, keep);
        TaughtEntries(a, lookup, keep) + (TaughtEntries(b', lookup, keep) + ClassEntries(lookup, t, keep));
      == { TaughtEntriesSnoc(b', t, lookup, keep); }
        TaughtEntries(a, lookup, keep) + TaughtEntries(b, lookup, keep);
      }
    }
  }

  /** Within one class, entries follow the order of its schedule. */
  lemma {:induction false} SlotEntriesAppend(c: ClassRecord, a: seq<Slot>, b: seq<Slot>, keep: Slot -> bool)
    ensures SlotEntries(c, a + b, keep) == SlotEntries(c, a, keep) + SlotEntries(c, b, keep)
    decreases |b|
  {
    if b == [] {
      assert a + b == a;
    } else {
      var b' := b[..|b| - 1];
      assert (a + b)[..|a + b| - 1] == a + b';
      SlotEntriesAppend(c, a, b', keep);
    }
  }

  /** Appending a class the lookup does not schedule adds no entries. */
  lemma UnscheduledLastAddsNothing(pre: seq<TaughtClass>, t: TaughtClass, lookup: int -> Option<ClassRecord>, keep: Slot -> bool)
    requires !Scheduled(lookup, t)
    ensures TaughtEntries(pre + [t], lookup, keep) == TaughtEntries(pre, lookup, keep)
  {
    assert (pre + [t])[..|pre + [t]| - 1] == pre;
  }

  /** A taught class that the lookup does not find, or whose record has no
      schedule, adds no entries: leaving it out gives the same entries. */
  lemma UnscheduledAddsNothing(taught: seq<TaughtClass>, lookup: int -> Option<ClassRecord>, keep: Slot -> bool, k: int)
    requires 0 <= k < |taught|
    requires !Scheduled(lookup, taught[k])
    ensures TaughtEntries(taught, lookup, keep) == TaughtEntries(taught[..k] + taught[k + 1..], lookup, keep)
  {
    var pre, t, post := taught[..k], taught[k], taught[k + 1..];
    assert taught == (pre + [t]) + post;
    TaughtEntriesAppend(pre + [t], post, lookup, keep);
    UnscheduledLastAddsNothing(pre, t, lookup, keep);
    TaughtEntriesAppend(pre, post, lookup, keep);
  }

  /** A taught class that the catalog does not have, or whose record has no
      schedule, changes no cell: leaving it out gives the same cell. */
  lemma UnscheduledClassContributesNothing(taught: seq<TaughtClass>, catalog: seq<ClassRecord>, k: int, dayCode: string, hour: int)
    requires 0 <= k < |taught|
    requires !Scheduled(Finder(catalog), taught[k])
    ensures CellSpec(taught, catalog, dayCode, hour)
            == CellSpec(taught[..k] + taught[k + 1..], catalog, dayCode, hour)
  {
    UnscheduledAddsNothing(taught, Finder(catalog), slot => Covers(slot, dayCode, hour), k);
  }

  /** A catalog whose meetings are all on Saturday or Sunday leaves every
      cell of the grid empty. */
  lemma WeekendOnlyCatalogIsHidden(taught: seq<TaughtClass>, catalog: seq<ClassRecord>, d: int, i: int)
    requires forall c, j :: c in catalog && c.schedule.Some? && 0 <= j < |c.schedule.value| ==>
               c.schedule.value[j].classDay in {"SAT", "SUN"}
    requires 0 <= d < |DayColumns| && 0 <= i < HourRows
    ensures CellSpec(taught, catalog, ColumnCode(DayColumns[d]), FirstHour + i) == []
  {
    var dayCode := ColumnCode(DayColumns[d]);
    var hour := FirstHour + i;
    var cell := CellSpec(taught, catalog, dayCode, hour);
    if cell != [] {
      CellMembership(taught, catalog, dayCode, hour, cell[0]);
      ColumnCodesAreWeekdays(d);
      assert false;
    }
  }
}
