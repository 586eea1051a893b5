/** The validated fields of a contact (`Name`, `Phone`, `Birthday`) and the
    errors the address book reports. Each field is a string that passed its
    check; the smart constructors `MakeName`, `MakePhone` and `MakeBirthday`
    are the only way the model turns raw text into a field. */
module Fields {
  import opened Wrappers
  import opened Digits
  import opened Calendar

  /** What goes wrong: a rejected field, a missing phone or contact, or a
      29 February birthday moved into a common year. */
  datatype Error =
    | EmptyName
    | InvalidPhone
    | InvalidBirthday
    | PhoneNotFound
    | ContactNotFound
    | LeapDayInCommonYear

  /** `str.isdigit()` restricted to ASCII: non-empty and all digits. */
  predicate IsDigitString(s: string) {
    |s| > 0 && forall i :: 0 <= i < |s| ==> IsDigit(s[i])
  }

  predicate IsPhoneNumber(s: string) {
    IsDigitString(s) && |s| == 10
  }

  predicate IsBirthdayText(s: string) {
    ParseDate(s).Some?
  }

  type Name = s: string | s != "" witness "?"

  type Phone = s: string | IsPhoneNumber(s) witness "0000000000"

  type Birthday = s: string | IsBirthdayText(s) witness "01-01-2000"

  /** `Name(value)`: rejects exactly the empty string. */
  function MakeName(value: string): (r: Result<Name, Error>)
    ensures r.Success? <==> |value| > 0
    ensures r.Success? ==> r.value == value
    ensures r.Failure? ==> r.error == EmptyName
  {
    if value == "" then Failure(EmptyName) else Success(value)
  }

  /** `Phone(value)`: accepts exactly the strings of ten ASCII digits. */
  function MakePhone(value: string): (r: Result<Phone, Error>)
    ensures r.Success? <==> |value| == 10 && forall i :: 0 <= i < |value| ==> '0' <= value[i] <= '9'
    ensures r.Success? ==> r.value == value
    ensures r.Failure? ==> r.error == InvalidPhone
  {
    if IsPhoneNumber(value) then Success(value) else Failure(InvalidPhone)
  }

  /** `Birthday(value)`: accepts exactly the `DD-MM-YYYY` texts of real dates
      Python can represent, and keeps the text as given. */
  function MakeBirthday(value: string): (r: Result<Birthday, Error>)
    ensures r.Success? <==> exists d :: InRange(d) && FormatDate(d) == value
    ensures r.Success? ==> r.value == value
    ensures r.Failure? ==> r.error == InvalidBirthday
  {
    ParseAcceptsFormatted(value);
    if ParseDate(value).Some? then Success(value) else Failure(InvalidBirthday)
  }
}
