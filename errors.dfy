/** The exceptions the contact store raises. */
module Errors {
  datatype Error =
    | InvalidPhone                  // Phone setter: not None and not ten digits
    | InvalidBirthday               // Birthday setter: not a date in YYYY-MM-DD form
    | PhoneNotFound                 // Record.edit_phone: no phone with the old number
    | ContactNotFound(name: string) // AddressBook.change_phone: no record with that name
    | YearOutOfRange(year: nat)     // datetime(year, month, day) with year above 9999
    | DayOutOfRange                 // datetime(year, month, day) with no such day in that month
}
