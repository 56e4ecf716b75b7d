/** The records both pages receive from the server, reduced to the fields
    the modelled logic reads. */
module Records {
  import opened Wrappers

  /** One weekly meeting of a class: `{ class_day, start_time, end_time }`,
      the times as `HH:MM:SS` texts. */
  datatype Slot = Slot(classDay: string, startTime: string, endTime: string)

  /** A class of the catalog. `schedule` is `None` when the record has no
      `schedule` value at all (JavaScript `undefined` or `null`); an empty
      list is `Some([])`, which JavaScript treats as present. */
  datatype ClassRecord = ClassRecord(classId: int, className: string, schedule: Option<seq<Slot>>)
}
