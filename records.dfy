/** The data the controller works on: one office-hours entry, and the two
    fixed vocabularies the form offers. */
module Records {

  /** One entry, as the controller creates it on submit and re-creates it from
      each line of the file: three plain strings. */
  datatype OfficeHour = OfficeHour(year: string, semester: string, selectedDays: string)

  /** The items of the semester drop-down, in the order it lists them. */
  const Semesters: seq<string> := ["Spring", "Summer", "Fall", "Winter"]

  /** The labels of the five day check boxes, Monday first. */
  const WeekDays: seq<string> := ["Monday", "Tuesday", "Wednesday", "Thursday", "Friday"]

  /** Which check box a day label belongs to (5 for any other text). */
  function DayIndex(name: string): (i: nat)
    ensures i <= 5
    ensures i < 5 ==> WeekDays[i] == name
    ensures i == 5 ==> name !in WeekDays
  {
    if name == "Monday" then 0
    else if name == "Tuesday" then 1
    else if name == "Wednesday" then 2
    else if name == "Thursday" then 3
    else if name == "Friday" then 4
    else 5
  }
}
