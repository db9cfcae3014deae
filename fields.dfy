/**
 * The validated fields of a contact: a phone number and a birthday. Each is built by a
 * smart constructor that either yields the field or fails with the message the source
 * raises; the field types carry their validation rule, so every stored field satisfies it.
 */
module Fields {
  import opened Results
  import opened Calendar
  import opened DateText

  const PHONE_ERROR := "The number must contain 10 digits."
  const BIRTHDAY_ERROR := "Invalid date format. Use DD.MM.YYYY"

  /** `Phone.validate`: exactly ten characters, all of them digits. */
  predicate IsPhoneNumber(s: string)
  {
    |s| == 10 && AllDigits(s)
  }

  type PhoneNumber = s: string | IsPhoneNumber(s) witness "0000000000"

  /** A birthday text is one the date parser accepts. */
  type BirthdayText = s: string | ParseDate(s).Some? witness FormatDate(Date(2000, 1, 1))

  datatype Phone = Phone(value: PhoneNumber)

  datatype Birthday = Birthday(value: BirthdayText)

  /** `Phone(value)`: the field holding `raw` unchanged, or the validation error. */
  function NewPhone(raw: string): (r: Result<Phone, string>)
    ensures r.Success? <==> |raw| == 10 && forall i :: 0 <= i < |raw| ==> '0' <= raw[i] <= '9'
    ensures r.Success? ==> r.value.value == raw
    ensures r.Failure? ==> r.error == PHONE_ERROR
  {
    if IsPhoneNumber(raw) then Success(Phone(raw)) else Failure(PHONE_ERROR)
  }

  /** `Birthday(value)`: the field holding `raw` unchanged, or the format error. */
  function NewBirthday(raw: string): (r: Result<Birthday, string>)
    ensures r.Success? <==> ParseDate(raw).Some?
    ensures r.Success? ==> r.value.value == raw
    ensures r.Failure? ==> r.error == BIRTHDAY_ERROR
  {
    if ParseDate(raw).Some? then Success(Birthday(raw)) else Failure(BIRTHDAY_ERROR)
  }

  /** The calendar date a stored birthday denotes. */
  function BirthDate(b: Birthday): (d: Date)
    ensures IsValidDate(d)
    ensures FormatDate(d) == b.value
  {
    FormatParse(b.value);
    ParseDate(b.value).value
  }

  /** A birthday is accepted exactly when its text is the text of a representable date. */
  lemma NewBirthdayAcceptsDateTexts(raw: string)
    ensures NewBirthday(raw).Success? <==> exists d :: IsValidDate(d) && FormatDate(d) == raw
  {
    if ParseDate(raw).Some? {
      FormatParse(raw);
    }
  }
}
