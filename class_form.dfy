/**
 * The add/edit form of the class page: the form fields, the list of
 * weekly meetings the form edits, the time inputs that show and store a
 * meeting's times, and the alert the page shows once the server answers a
 * submission.
 */
module ClassForm {
  import opened Wrappers
  import opened Records
  import opened ScheduleDisplay
  import opened WeeklyGrid

  // ---------------------------------------------------------------------
  // One meeting and its fields
  // ---------------------------------------------------------------------

  /** The meeting a new form starts with, and the one "Add Another Time"
      appends: Monday, 10:00 to 11:30. */
  const DefaultSlot: Slot := Slot("M", "10:00:00", "11:30:00")

  /** The three fields of a meeting that `handleScheduleChange` names. */
  datatype SlotField = ClassDay | StartTime | EndTime

  /** The value of one field of a meeting. */
  function FieldOf(slot: Slot, field: SlotField): string {
    match field
    case ClassDay => slot.classDay
    case StartTime => slot.startTime
    case EndTime => slot.endTime
  }

  /** `{ ...slot, [field]: value }`. */
  function UpdateSlot(slot: Slot, field: SlotField, value: string): Slot {
    match field
    case ClassDay => slot.(classDay := value)
    case StartTime => slot.(startTime := value)
    case EndTime => slot.(endTime := value)
  }

  /** The updated field reads back the new value, every other field keeps
      its value, and writing a field's own value back changes nothing. */
  lemma UpdateSlotFields(slot: Slot, field: SlotField, value: string, other: SlotField)
    ensures FieldOf(UpdateSlot(slot, field, value), field) == value
    ensures other != field ==> FieldOf(UpdateSlot(slot, field, value), other) == FieldOf(slot, other)
    ensures UpdateSlot(slot, field, FieldOf(slot, field)) == slot
  {
  }

  // ---------------------------------------------------------------------
  // The list of meetings
  // ---------------------------------------------------------------------

  /** `handleScheduleChange(index, field, value)`: a copy of the list with
      one field of one meeting replaced. The page only calls it with the
      index of a meeting it shows. */
  function SetScheduleField(schedule: seq<Slot>, index: int, field: SlotField, value: string): seq<Slot>
    requires 0 <= index < |schedule|
  {
    schedule[index := UpdateSlot(schedule[index], field, value)]
  }

  /** Only the named field of the meeting at the index changes: the length,
      every other meeting and the other fields of that meeting stay. */
  lemma SetScheduleFieldChangesOneField(schedule: seq<Slot>, index: int, field: SlotField, value: string)
    requires 0 <= index < |schedule|
    ensures var r := SetScheduleField(schedule, index, field, value);
            && |r| == |schedule|
            && FieldOf(r[index], field) == value
            && (forall other :: other != field ==> FieldOf(r[index], other) == FieldOf(schedule[index], other))
            && (forall j :: 0 <= j < |r| && j != index ==> r[j] == schedule[j])
  {
    forall other | other != field
      ensures FieldOf(SetScheduleField(schedule, index, field, value)[index], other) == FieldOf(schedule[index], other)
    {
      UpdateSlotFields(schedule[index], field, value, other);
    }
  }

  /** `addScheduleItem`: the default meeting appended. */
  function AddScheduleItem(schedule: seq<Slot>): seq<Slot> {
    schedule + [DefaultSlot]
  }

  /** Appending grows the list by one, keeps every earlier meeting and puts
      the default meeting last. */
  lemma AddScheduleItemAppends(schedule: seq<Slot>)
    ensures var r := AddScheduleItem(schedule);
            && |r| == |schedule| + 1
            && r[..|schedule|] == schedule
            && r[|schedule|] == DefaultSlot
  {
  }

  /** `filter((_, i) => i !== index)`: the meetings at every other
      position, in order. */
  function WithoutIndex(schedule: seq<Slot>, index: int): (r: seq<Slot>)
    ensures |r| <= |schedule|
  {
    if schedule == [] then []
    else
      var last := |schedule| - 1;
      WithoutIndex(schedule[..last], index) + (if last != index then [schedule[last]] else [])
  }

  /** The filter drops exactly the meeting at the index: a cut around it
      when the index is a position of the list, and nothing otherwise. */
  lemma {:induction false} WithoutIndexCuts(schedule: seq<Slot>, index: int)
    ensures 0 <= index < |schedule| ==> WithoutIndex(schedule, index) == schedule[..index] + schedule[index + 1..]
    ensures !(0 <= index < |schedule|) ==> WithoutIndex(schedule, index) == schedule
    decreases |schedule|
  {
    if schedule != [] {
      var last := |schedule| - 1;
      var init := schedule[..last];
      WithoutIndexCuts(init, index);
      if 0 <= index < last {
        assert init[..index] == schedule[..index];
        assert init[index + 1..] + [schedule[last]] == schedule[index + 1..];
      } else if index == last {
        assert init == schedule[..index];
        assert schedule[index + 1..] == [];
      } else {
        assert init + [schedule[last]] == schedule;
      }
    }
  }

  /** `removeScheduleItem(index)`: the filter, but only while more than one
      meeting is listed. */
  function RemoveScheduleItem(schedule: seq<Slot>, index: int): seq<Slot> {
    if |schedule| > 1 then WithoutIndex(schedule, index) else schedule
  }

  /** With more than one meeting, removing a listed position drops exactly
      that meeting and keeps the rest in order; with one meeting, or at a
      position that is not listed, nothing changes. */
  lemma RemoveScheduleItemCases(schedule: seq<Slot>, index: int)
    ensures var r := RemoveScheduleItem(schedule, index);
            && (|schedule| > 1 && 0 <= index < |schedule| ==>
                  |r| == |schedule| - 1
                  && (forall j :: 0 <= j < index ==> r[j] == schedule[j])
                  && (forall j :: index <= j < |r| ==> r[j] == schedule[j + 1]))
            && (|schedule| <= 1 || !(0 <= index < |schedule|) ==> r == schedule)
  {
    WithoutIndexCuts(schedule, index);
  }

  /** None of the three edits empties a list that has a meeting. */
  lemma EditsKeepAMeeting(schedule: seq<Slot>, index: int, field: SlotField, value: string)
    requires |schedule| >= 1
    ensures |AddScheduleItem(schedule)| >= 1
    ensures |RemoveScheduleItem(schedule, index)| >= 1
    ensures 0 <= index < |schedule| ==> |SetScheduleField(schedule, index, field, value)| >= 1
  {
    WithoutIndexCuts(schedule, index);
  }

  // ---------------------------------------------------------------------
  // The day select and the time inputs
  // ---------------------------------------------------------------------

  /** The options of the day select: a code and the text shown for it. */
  const DayOptions: seq<(string, string)> := [
    ("M", "Monday"), ("T", "Tuesday"), ("W", "Wednesday"), ("R", "Thursday"),
    ("F", "Friday"), ("SAT", "Saturday"), ("SUN", "Sunday")]

  /** The select offers the seven day codes in week order, labels each the
      way `getDayName` names it, and the default meeting's day is one of
      them. */
  lemma DayOptionsAreTheDayCodes(i: int)
    requires 0 <= i < |DayOptions|
    ensures |DayOptions| == |DayCodes|
    ensures DayOptions[i].0 == DayCodes[i]
    ensures DayOptions[i].1 == GetDayName(DayOptions[i].0)
    ensures DefaultSlot.classDay == DayOptions[0].0
  {
    GetDayNameOfCodes(i);
  }

  /** What a time input shows for a stored time: `substring(0, 5)`. */
  function TimeInputValue(stored: string): (shown: string)
    ensures |shown| == if |stored| < 5 then |stored| else 5
    ensures shown == stored[..|shown|]
  {
    if |stored| < 5 then stored else stored[..5]
  }

  /** What a time input stores for the text it gives: `value + ':00'`. */
  function StoredTime(input: string): string {
    input + ":00"
  }

  /** Storing an `HH:MM` input and showing it again gives the input back. */
  lemma TimeInputRoundTrip(input: string)
    requires |input| == 5
    ensures TimeInputValue(StoredTime(input)) == input
  {
    assert StoredTime(input)[..5] == input;
  }

  /** Showing a stored `HH:MM:00` time and storing the input again gives the
      stored time back; other seconds are replaced by `:00`. */
  lemma StoredTimeRoundTrip(stored: string)
    requires |stored| == 8
    ensures StoredTime(TimeInputValue(stored)) == stored <==> stored[5..] == ":00"
  {
    assert StoredTime(TimeInputValue(stored)) == stored[..5] + ":00";
    if stored[5..] == ":00" {
      assert stored == stored[..5] + stored[5..];
    }
    if StoredTime(TimeInputValue(stored)) == stored {
      assert stored[5..] == (stored[..5] + ":00")[5..];
    }
  }

  /** A starting or ending time cleared in its input is stored as `:00`,
      whose hour is no number: the meeting is in no cell of the weekly
      grid. */
  lemma ClearedTimeIsInNoCell(slot: Slot, dayCode: string, hour: int)
    requires slot.startTime == StoredTime("") || slot.endTime == StoredTime("")
    ensures !Covers(slot, dayCode, hour)
  {
    ClearedInputHasNoHour();
  }

  /** The hour of a cleared time. */
  lemma ClearedInputHasNoHour()
    ensures HourOf(StoredTime("")) == None
  {
    assert StoredTime("") == [] + [':'] + "00";
    JsText.SplitAtFirst([], ':', "00");
    JsText.DigitRunLengthOfDigits([], 10);
  }

  // ---------------------------------------------------------------------
  // The form
  // ---------------------------------------------------------------------

  /** A professor the form can assign. */
  datatype Professor = Professor(id: int, name: string)

  /** The form's `professorID`: an id, or the empty text when there is
      none. */
  datatype ProfessorChoice = NoProfessor | ProfessorId(id: int)

  /** The fields of the form. */
  datatype FormData = FormData(
    className: string,
    professorId: ProfessorChoice,
    units: int,
    seats: int,
    startDate: string,
    endDate: string,
    schedule: seq<Slot>)

  /** The form `openAddModal` opens: every field empty or at its default,
      the first professor preselected, one default meeting. */
  function NewClassForm(professors: seq<Professor>): FormData {
    FormData("", if |professors| > 0 then ProfessorId(professors[0].id) else NoProfessor,
             3, 30, "", "", [DefaultSlot])
  }

  /** A new form names a professor exactly when there is one, and then the
      first; it asks for three units and thirty seats and lists the default
      meeting alone. */
  lemma NewClassFormDefaults(professors: seq<Professor>)
    ensures var f := NewClassForm(professors);
            && (f.professorId.ProfessorId? <==> |professors| > 0)
            && (f.professorId.ProfessorId? ==> f.professorId.id == professors[0].id)
            && f.className == "" && f.startDate == "" && f.endDate == ""
            && f.units == 3 && f.seats == 30
            && |f.schedule| == 1 && f.schedule[0] == DefaultSlot
  {
  }

  /** A class as the server lists it, reduced to what the edit form copies.
      Its dates are given already in the `YYYY-MM-DD` form the date inputs
      take. */
  datatype ClassItem = ClassItem(
    classId: int,
    className: string,
    professorId: Option<int>,
    professorName: string,
    units: int,
    seats: int,
    startDate: string,
    endDate: string,
    schedule: seq<Slot>)

  /** The first professor with the name, if any: `professors.find(...)`. */
  function FindProfessor(professors: seq<Professor>, name: string): (r: Option<Professor>)
    ensures r.Some? ==> r.value in professors && r.value.name == name
    ensures r.None? ==> forall i :: 0 <= i < |professors| ==> professors[i].name != name
  {
    if professors == [] then None
    else if professors[0].name == name then Some(professors[0])
    else FindProfessor(professors[1..], name)
  }

  /** `classItem.professorID || professors.find(p => p.name ===
      classItem.professor_name)?.id || ''`: an id of 0 counts as missing. */
  function EditProfessor(item: ClassItem, professors: seq<Professor>): ProfessorChoice {
    if item.professorId.Some? && item.professorId.value != 0 then ProfessorId(item.professorId.value)
    else
      var found := FindProfessor(professors, item.professorName);
      if found.Some? && found.value.id != 0 then ProfessorId(found.value.id) else NoProfessor
  }

  /** `find` fails exactly when no professor has the name, and otherwise
      returns the first one that has it. */
  lemma {:induction false} FindProfessorFindsFirst(professors: seq<Professor>, name: string)
    ensures FindProfessor(professors, name).Some? ==>
              exists k :: 0 <= k < |professors| && professors[k] == FindProfessor(professors, name).value
                && forall j :: 0 <= j < k ==> professors[j].name != name
  {
    if professors != [] && professors[0].name != name {
      FindProfessorFindsFirst(professors[1..], name);
      if FindProfessor(professors, name).Some? {
        var k :| 0 <= k < |professors[1..]| && professors[1..][k] == FindProfessor(professors, name).value
                 && forall j :: 0 <= j < k ==> professors[1..][j].name != name;
        assert professors[k + 1] == FindProfessor(professors, name).value;
        assert forall j :: 0 <= j < k + 1 ==> professors[j].name != name by {
          forall j | 0 <= j < k + 1 ensures professors[j].name != name {
            if j > 0 { assert professors[j] == professors[1..][j - 1]; }
          }
        }
      }
    }
  }

  /** The edit form keeps the class's own professor when it has a nonzero
      id; otherwise it takes the first professor with the class's professor
      name, unless there is none or that one's id is 0, when it is left
      without a professor. It never picks id 0. */
  lemma EditProfessorChoice(item: ClassItem, professors: seq<Professor>)
    ensures var p := EditProfessor(item, professors);
            && (item.professorId.Some? && item.professorId.value != 0 ==> p == ProfessorId(item.professorId.value))
            && (p.ProfessorId? ==> p.id != 0)
            && (item.professorId.None? || item.professorId.value == 0 ==>
                  (p != NoProfessor <==>
                     exists k :: 0 <= k < |professors| && professors[k].name == item.professorName
                       && p == ProfessorId(professors[k].id) && professors[k].id != 0
                       && forall j :: 0 <= j < k ==> professors[j].name != item.professorName))
  {
    FindProfessorFindsFirst(professors, item.professorName);
  }

  /** The form `openEditModal` opens for a class. */
  function EditClassForm(item: ClassItem, professors: seq<Professor>): FormData {
    FormData(item.className, EditProfessor(item, professors), item.units, item.seats,
             item.startDate, item.endDate, item.schedule)
  }

  // ---------------------------------------------------------------------
  // Submitting
  // ---------------------------------------------------------------------

  /** Whether the form adds a class or edits one. */
  datatype ModalMode = AddMode | EditMode

  /** Where a submission goes: `POST /classes/add`, or `PATCH
      /classes/<id>`. */
  datatype Target = AddClass | UpdateClass(classId: int)

  /** The target of a submission; editing without a current class fails
      before any request is made (reading `class_id` of `null`). */
  function SubmitTarget(mode: ModalMode, current: Option<ClassItem>): (t: Option<Target>)
    ensures mode == AddMode ==> t == Some(AddClass)
    ensures mode == EditMode ==> (t.Some? <==> current.Some?)
    ensures mode == EditMode && current.Some? ==> t == Some(UpdateClass(current.value.classId))
  {
    if mode == AddMode then Some(AddClass)
    else if current.Some? then Some(UpdateClass(current.value.classId))
    else None
  }

  /** How a submission ended: the server answered with a status and the
      `error` text of its JSON body, if any; or the request, the reading of
      the body or the request's preparation threw. */
  datatype SubmitOutcome = Answered(ok: bool, status: int, error: Option<string>) | Threw

  datatype AlertKind = Success | Danger

  datatype Alert = Alert(kind: AlertKind, message: string)

  const ConflictMessage: string := "The professor is teaching another class at that time"
  const GenericError: string := "An error occurred"
  const RequestError: string := "An error occurred while processing your request"

  /** The alert `handleSubmit` sets for an outcome. */
  function SubmitAlert(mode: ModalMode, outcome: SubmitOutcome): Alert {
    match outcome
    case Threw => Alert(Danger, RequestError)
    case Answered(ok, status, error) =>
      if ok then Alert(Success, if mode == AddMode then "Class added successfully" else "Class updated successfully")
      else if status == 409 then Alert(Danger, ConflictMessage)
      else if error.Some? && error.value != "" then Alert(Danger, error.value)
      else Alert(Danger, GenericError)
  }

  /** A refused submission shows the conflict message for status 409, and
      otherwise the server's error text, or the generic message
      when that text is missing or empty. A success names the mode, and
      anything that threw shows the request error. */
  lemma SubmitAlertCases(mode: ModalMode, outcome: SubmitOutcome)
    ensures var a := SubmitAlert(mode, outcome);
            && (a.kind == Success <==> outcome.Answered? && outcome.ok)
            && (outcome.Answered? && !outcome.ok && outcome.status == 409 ==> a.message == ConflictMessage)
            && (outcome.Answered? && !outcome.ok && outcome.status != 409 ==>
                  a.message == (if outcome.error.Some? && outcome.error.value != "" then outcome.error.value else GenericError))
            && (outcome.Threw? ==> a.message == RequestError)
            && (a.kind == Success ==> (a.message == "Class added successfully" <==> mode == AddMode))
  {
  }

  // ---------------------------------------------------------------------
  // The page state
  // ---------------------------------------------------------------------

  /** The state of the class page that the form handlers change. */
  class ClassPageState {
    var form: FormData
    var modalMode: ModalMode
    var currentClass: Option<ClassItem>
    var showModal: bool
    var professors: seq<Professor>
    var alert: Option<Alert>

    /** The initial `useState` values: the form is the add form for no
        professors. */
    constructor()
      ensures form == NewClassForm([])
      ensures modalMode == AddMode && currentClass == None && !showModal
      ensures professors == [] && alert == None
      ensures Valid()
    {
      form := NewClassForm([]);
      modalMode := AddMode;
      currentClass := None;
      showModal := false;
      professors := [];
      alert := None;
    }

    /** The form lists at least one meeting. */
    predicate Valid()
      reads this
    {
      |form.schedule| >= 1
    }

    /** The professor list has arrived. */
    method SetProfessors(ps: seq<Professor>)
      modifies this
      ensures professors == ps
      ensures form == old(form) && modalMode == old(modalMode) && currentClass == old(currentClass)
      ensures showModal == old(showModal) && alert == old(alert)
    {
      professors := ps;
    }

    /** `openAddModal`: a fresh add form, no current class, the modal
        open. */
    method OpenAddModal()
      modifies this
      ensures form == NewClassForm(professors)
      ensures modalMode == AddMode && currentClass == None && showModal
      ensures professors == old(professors) && alert == old(alert)
      ensures Valid()
    {
      var choice := if |professors| > 0 then ProfessorId(professors[0].id) else NoProfessor;
      form := FormData("", choice, 3, 30, "", "", [DefaultSlot]);
      modalMode := AddMode;
      currentClass := None;
      showModal := true;
    }

    /** `openEditModal`: the class's values in the form, the class current,
        the modal open. The form lists a meeting exactly when the class
        does. */
    method OpenEditModal(item: ClassItem)
      modifies this
      ensures form == EditClassForm(item, professors)
      ensures modalMode == EditMode && currentClass == Some(item) && showModal
      ensures professors == old(professors) && alert == old(alert)
      ensures Valid() <==> |item.schedule| >= 1
    {
      form := EditClassForm(item, professors);
      modalMode := EditMode;
      currentClass := Some(item);
      showModal := true;
    }

    /** `closeModal`: the modal closed and no current class; the form stays
        as it was. */
    method CloseModal()
      modifies this
      ensures !showModal && currentClass == None
      ensures form == old(form) && modalMode == old(modalMode)
      ensures professors == old(professors) && alert == old(alert)
    {
      showModal := false;
      currentClass := None;
    }

    /** `handleScheduleChange`. */
    method HandleScheduleChange(index: int, field: SlotField, value: string)
      requires 0 <= index < |form.schedule|
      modifies this
      ensures form == old(form).(schedule := SetScheduleField(old(form.schedule), index, field, value))
      ensures modalMode == old(modalMode) && currentClass == old(currentClass) && showModal == old(showModal)
      ensures professors == old(professors) && alert == old(alert)
      ensures Valid() <==> old(Valid())
    {
      var updated := form.schedule;
      updated := updated[index := UpdateSlot(updated[index], field, value)];
      form := form.(schedule := updated);
    }

    /** `addScheduleItem`. */
    method AddScheduleItemToForm()
      modifies this
      ensures form == old(form).(schedule := AddScheduleItem(old(form.schedule)))
      ensures modalMode == old(modalMode) && currentClass == old(currentClass) && showModal == old(showModal)
      ensures professors == old(professors) && alert == old(alert)
      ensures Valid()
    {
      form := form.(schedule := form.schedule + [DefaultSlot]);
    }

    /** `removeScheduleItem`: the filter runs only while more than one
        meeting is listed. */
    method RemoveScheduleItemFromForm(index: int)
      modifies this
      ensures form == old(form).(schedule := RemoveScheduleItem(old(form.schedule), index))
      ensures modalMode == old(modalMode) && currentClass == old(currentClass) && showModal == old(showModal)
      ensures professors == old(professors) && alert == old(alert)
      ensures Valid() <==> old(Valid())
    {
      var schedule := form.schedule;
      if |schedule| > 1 {
        var kept := [];
        var i := 0;
        while i < |schedule|
          invariant 0 <= i <= |schedule|
          invariant kept == WithoutIndex(schedule[..i], index)
        {
          assert schedule[..i + 1][..i] == schedule[..i];
          if i != index {
            kept := kept + [schedule[i]];
          }
          i := i + 1;
        }
        assert schedule[..i] == schedule;
        WithoutIndexCuts(schedule, index);
        form := form.(schedule := kept);
      }
    }

    /** The end of `handleSubmit`: the alert for the outcome, and on success
        the modal closed with no current class. */
    method ApplySubmitOutcome(outcome: SubmitOutcome)
      modifies this
      ensures alert == Some(SubmitAlert(old(modalMode), outcome))
      ensures (outcome.Answered? && outcome.ok) ==> !showModal && currentClass == None
      ensures !(outcome.Answered? && outcome.ok) ==> showModal == old(showModal) && currentClass == old(currentClass)
      ensures form == old(form) && modalMode == old(modalMode) && professors == old(professors)
    {
      alert := Some(SubmitAlert(modalMode, outcome));
      if outcome.Answered? && outcome.ok {
        showModal := false;
        currentClass := None;
      }
    }
  }
}
