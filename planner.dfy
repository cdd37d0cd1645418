/** Planner items: the columns of a PlannerItem row and the schema's
    constraint on them. */
module Planner {
  import opened Wrappers
  import opened Table

  /** A date of the proleptic Gregorian calendar, in the range of Python's
      datetime.date (years 1 to 9999). */
  datatype Date = Date(year: int, month: int, day: int)

  predicate IsLeapYear(y: int) {
    y % 4 == 0 && (y % 100 != 0 || y % 400 == 0)
  }

  function DaysInMonth(y: int, m: int): (n: int)
    requires 1 <= m <= 12
    ensures 28 <= n <= 31
    ensures n == 29 <==> m == 2 && IsLeapYear(y)
    ensures n == 28 <==> m == 2 && !IsLeapYear(y)
    ensures n == 30 <==> m == 4 || m == 6 || m == 9 || m == 11
  {
    if m == 2 then (if IsLeapYear(y) then 29 else 28)
    else if m == 4 || m == 6 || m == 9 || m == 11 then 30
    else 31
  }

  predicate IsCalendarDate(d: Date) {
    1 <= d.year <= 9999 && 1 <= d.month <= 12 && 1 <= d.day <= DaysInMonth(d.year, d.month)
  }

  /** The values a db.Date column can hold. */
  type CalendarDate = d: Date | IsCalendarDate(d) witness Date(1, 1, 1)

  /** appointment_date is declared NOT NULL; a Python-side row may still lack it. */
  datatype Item = Item(text: string, appointmentDate: Option<CalendarDate>)

  /** The NOT NULL constraint on appointment_date, checked when a row is
      committed: the schema accepts a row exactly when its date is present. */
  function SchemaAccepts(row: Row<Item>): (b: bool)
    ensures b <==> row.data.appointmentDate != None
  {
    row.data.appointmentDate.Some?
  }

  /** PlannerItem(text=item_text, owner=current_user): no appointment date is set. */
  function ItemFromForm(id: nat, uid: nat, text: string): (row: Row<Item>)
    ensures row.id == id && row.userId == uid && row.data.text == text
    ensures !SchemaAccepts(row)
  {
    Row(id, uid, Item(text, None))
  }
}
